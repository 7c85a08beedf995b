/** `process_streets_data`: the ways of the street query become street records
    that keep only the nodes inside the bounding box. */
module StreetExtractor {
  import opened Wrappers
  import opened Seqs
  import opened OsmData
  import opened BoundingBox
  import Numerals

  datatype RawNode = RawNode(id: int, lat: real, lon: real)
  datatype RawWay = RawWay(id: int, nodes: seq<RawNode>, tags: seq<Tag>)
  /** The answer to the street query. */
  datatype StreetData = StreetData(ways: seq<RawWay>)

  /** `int(lanes)` raised `ValueError`, which `process_streets_data` does not catch. */
  datatype ExtractError = LanesNotInteger(wayId: int, lanes: string)

  /** The `node_object` dict: id, lat and lon only. */
  function NodeObject(n: RawNode): (r: Node)
    ensures Plain(r) && r.id == n.id && r.lat == n.lat && r.lon == n.lon
  {
    Node(n.id, n.lat, n.lon, None, None, None, None)
  }

  predicate NodeInBox(b: BBox, n: Node)
  {
    Inside(b, n.lat, n.lon)
  }

  /** The `node_list` of one way: the nodes inside the box, in way order,
      skipping a node structurally equal to one already kept. */
  function KeptNodes(ns: seq<RawNode>, b: BBox): (r: seq<Node>)
    ensures forall k :: 0 <= k < |r| ==> Plain(r[k]) && NodeInBox(b, r[k])
    ensures NoDup(r)
    ensures |r| <= |ns|
  {
    if |ns| == 0 then []
    else
      var prev := KeptNodes(ns[..|ns| - 1], b);
      var x := NodeObject(ns[|ns| - 1]);
      if NodeInBox(b, x) && x !in prev then prev + [x] else prev
  }

  /** Exactly the nodes of the way that lie inside the box are kept. */
  lemma {:induction false} KeptNodesMembers(ns: seq<RawNode>, b: BBox, x: Node)
    ensures x in KeptNodes(ns, b) <==>
            exists k :: 0 <= k < |ns| && NodeObject(ns[k]) == x && NodeInBox(b, x)
  {
    if |ns| > 0 {
      var init := ns[..|ns| - 1];
      KeptNodesMembers(init, b, x);
      if x in KeptNodes(init, b) {
        var k :| 0 <= k < |init| && NodeObject(init[k]) == x && NodeInBox(b, x);
        assert ns[k] == init[k];
      }
      if exists k :: 0 <= k < |ns| && NodeObject(ns[k]) == x && NodeInBox(b, x) {
        var k :| 0 <= k < |ns| && NodeObject(ns[k]) == x && NodeInBox(b, x);
        if k < |init| {
          assert init[k] == ns[k];
        }
      }
    }
  }

  /** The kept nodes are in the order of their first occurrence in the way:
      wherever a later kept node occurs, an earlier kept node occurred before it. */
  lemma {:induction false} KeptNodesFirstOccurrence(ns: seq<RawNode>, b: BBox, m1: nat, m2: nat, k2: nat)
    requires m1 < m2 < |KeptNodes(ns, b)|
    requires k2 < |ns| && NodeObject(ns[k2]) == KeptNodes(ns, b)[m2]
    ensures exists k1 :: 0 <= k1 < k2 && NodeObject(ns[k1]) == KeptNodes(ns, b)[m1]
  {
    var init := ns[..|ns| - 1];
    var prev := KeptNodes(init, b);
    var r := KeptNodes(ns, b);
    var x1 := r[m1];
    assert x1 in prev by {
      if !(m2 < |prev|) {
        assert r == prev + [NodeObject(ns[|ns| - 1])];
      }
    }
    KeptNodesMembers(init, b, x1);
    var j1 :| 0 <= j1 < |init| && NodeObject(init[j1]) == x1 && NodeInBox(b, x1);
    if k2 == |ns| - 1 {
      assert ns[j1] == init[j1];
    } else if m2 < |prev| {
      assert init[k2] == ns[k2];
      KeptNodesFirstOccurrence(init, b, m1, m2, k2);
      var k1 :| 0 <= k1 < k2 && NodeObject(init[k1]) == prev[m1];
      assert ns[k1] == init[k1];
    } else {
      // r[m2] is the node appended for the last raw node, so no earlier raw
      // node inside the box equals it
      var x2 := NodeObject(ns[|ns| - 1]);
      assert r == prev + [x2] && r[m2] == x2 && x2 !in prev;
      assert init[k2] == ns[k2];
      KeptNodesMembers(init, b, x2);
      assert false;
    }
  }

  /** A string tag after the falsy-value filter: absent when missing or empty. */
  function StringField(v: Option<string>): (r: Option<string>)
    ensures r.Some? <==> v.Some? && v.value != ""
    ensures r.Some? ==> r == v
  {
    if v.Some? && v.value != "" then v else None
  }

  /** `bool(oneway)` on a present tag, then the falsy-value filter: `True` for
      every non-empty string, including "no"; an empty string gives `False`, which is dropped. */
  function OnewayField(v: Option<string>): (r: Option<bool>)
    ensures r.Some? <==> v.Some? && v.value != ""
    ensures r.Some? ==> r.value
  {
    if v.Some? && v.value != "" then Some(true) else None
  }

  /** `int(lanes)` on a present tag, then the falsy-value filter drops 0. */
  function LanesField(w: RawWay): (r: Result<Option<int>, ExtractError>)
    ensures r.Err? <==> GetTag(w.tags, "lanes").Some? && Numerals.ParseInt(GetTag(w.tags, "lanes").value).None?
    ensures r.Ok? && r.value.Some? ==>
              r.value.value != 0 && GetTag(w.tags, "lanes").Some? && Numerals.ParseInt(GetTag(w.tags, "lanes").value) == r.value
    ensures GetTag(w.tags, "lanes").Some? && Numerals.ParseInt(GetTag(w.tags, "lanes").value).Some? &&
            Numerals.ParseInt(GetTag(w.tags, "lanes").value).value != 0 ==>
              r == Ok(Numerals.ParseInt(GetTag(w.tags, "lanes").value))
  {
    match GetTag(w.tags, "lanes")
    case None => Ok(None)
    case Some(s) =>
      match Numerals.ParseInt(s)
      case None => Err(LanesNotInteger(w.id, s))
      case Some(k) => Ok(if k != 0 then Some(k) else None)
  }

  /** No field holds a falsy value: empty strings, `False` and 0 have been removed. */
  predicate NoFalsyFields(s: Street)
  {
    && (s.name.Some? ==> s.name.value != "")
    && (s.highway.Some? ==> s.highway.value != "")
    && (s.addrStreet.Some? ==> s.addrStreet.value != "")
    && (s.surface.Some? ==> s.surface.value != "")
    && (s.oneway.Some? ==> s.oneway.value)
    && (s.sidewalk.Some? ==> s.sidewalk.value != "")
    && (s.maxspeed.Some? ==> s.maxspeed.value != "")
    && (s.lanes.Some? ==> s.lanes.value != 0)
    && |s.nodes| > 0
  }

  /** The field `f` holds the tag `key` exactly when that tag is present and
      non-empty, and then holds its value. */
  predicate KeptTag(f: Option<string>, tags: seq<Tag>, key: string)
  {
    (f.Some? <==> GetTag(tags, key).Some? && GetTag(tags, key).value != "") &&
    (f.Some? ==> f == GetTag(tags, key))
  }

  /** The `way_object` of a way whose `node_list` is `kept`. */
  function WayObject(w: RawWay, kept: seq<Node>): (r: Result<Street, ExtractError>)
    requires |kept| > 0
    ensures r.Err? <==> LanesField(w).Err?
    ensures r.Ok? ==> NoFalsyFields(r.value) && r.value.streetId == w.id && r.value.nodes == kept
    ensures r.Ok? ==> (r.value.oneway == Some(true) <==> GetTag(w.tags, "oneway").Some? && GetTag(w.tags, "oneway").value != "")
    ensures r.Ok? ==> r.value.lanes == LanesField(w).value
    ensures r.Ok? ==> KeptTag(r.value.name, w.tags, "name") && KeptTag(r.value.highway, w.tags, "highway")
    ensures r.Ok? ==> KeptTag(r.value.addrStreet, w.tags, "addr:street") && KeptTag(r.value.surface, w.tags, "surface")
    ensures r.Ok? ==> KeptTag(r.value.sidewalk, w.tags, "sidewalk") && KeptTag(r.value.maxspeed, w.tags, "maxspeed")
  {
    match LanesField(w)
    case Err(e) => Err(e)
    case Ok(lanes) =>
      Ok(Street(
        w.id,
        StringField(GetTag(w.tags, "name")),
        StringField(GetTag(w.tags, "highway")),
        StringField(GetTag(w.tags, "addr:street")),
        StringField(GetTag(w.tags, "surface")),
        OnewayField(GetTag(w.tags, "oneway")),
        StringField(GetTag(w.tags, "sidewalk")),
        StringField(GetTag(w.tags, "maxspeed")),
        lanes,
        kept))
  }

  /** The loop over `OSM_data.ways`: the first `ValueError` ends it. */
  function ProcessWays(ws: seq<RawWay>, b: BBox): Result<seq<Street>, ExtractError>
  {
    if |ws| == 0 then Ok([])
    else
      match ProcessWays(ws[..|ws| - 1], b)
      case Err(e) => Err(e)
      case Ok(prev) =>
        var w := ws[|ws| - 1];
        var kept := KeptNodes(w.nodes, b);
        if |kept| == 0 then Ok(prev)
        else
          match WayObject(w, kept)
          case Err(e) => Err(e)
          case Ok(s) => Ok(prev + [s])
  }

  /** Every street record has no falsy field, a non-empty list of distinct
      nodes, and only nodes inside the box that carry nothing but id, lat and lon. */
  lemma {:induction false} ProcessWaysClean(ws: seq<RawWay>, b: BBox)
    requires ProcessWays(ws, b).Ok?
    ensures var ss := ProcessWays(ws, b).value;
            forall k :: 0 <= k < |ss| ==>
              NoFalsyFields(ss[k]) && NoDup(ss[k].nodes) &&
              forall m :: 0 <= m < |ss[k].nodes| ==> NodeInBox(b, ss[k].nodes[m]) && Plain(ss[k].nodes[m])
  {
    if |ws| > 0 {
      ProcessWaysClean(ws[..|ws| - 1], b);
    }
  }

  /** `process_streets_data`: `None` data (every server down) raises
      `AttributeError`, which is logged, and the function returns `None`. */
  function ProcessedStreets(data: Option<StreetData>, b: BBox): Result<Option<seq<Street>>, ExtractError>
  {
    match data
    case None => Ok(None)
    case Some(d) =>
      match ProcessWays(d.ways, b)
      case Err(e) => Err(e)
      case Ok(ss) => Ok(Some(ss))
  }

  /** The ways that keep at least one node, in order. */
  function KeptWays(ws: seq<RawWay>, b: BBox): seq<RawWay>
  {
    if |ws| == 0 then []
    else
      var w := ws[|ws| - 1];
      KeptWays(ws[..|ws| - 1], b) + if |KeptNodes(w.nodes, b)| > 0 then [w] else []
  }

  /** One record per way that keeps a node, in way order, built from that way:
      a way with no node inside the box produces no record. */
  lemma {:induction false} ProcessWaysRecords(ws: seq<RawWay>, b: BBox)
    requires ProcessWays(ws, b).Ok?
    ensures var ss := ProcessWays(ws, b).value;
            var kw := KeptWays(ws, b);
            |ss| == |kw| &&
            forall k :: 0 <= k < |ss| ==>
              |KeptNodes(kw[k].nodes, b)| > 0 && WayObject(kw[k], KeptNodes(kw[k].nodes, b)) == Ok(ss[k])
  {
    if |ws| > 0 {
      ProcessWaysRecords(ws[..|ws| - 1], b);
    }
  }

  /** The way keeps a node and its `lanes` tag is not an integer. */
  predicate WayFails(w: RawWay, b: BBox)
  {
    |KeptNodes(w.nodes, b)| > 0 && LanesField(w).Err?
  }

  /** Processing fails exactly when some way that keeps a node has a `lanes`
      tag that is not an integer. */
  lemma {:induction false} ProcessWaysFails(ws: seq<RawWay>, b: BBox)
    ensures ProcessWays(ws, b).Err? <==> exists k :: 0 <= k < |ws| && WayFails(ws[k], b)
  {
    if |ws| > 0 {
      var init := ws[..|ws| - 1];
      ProcessWaysFails(init, b);
      if exists k :: 0 <= k < |init| && WayFails(init[k], b) {
        var k :| 0 <= k < |init| && WayFails(init[k], b);
        assert ws[k] == init[k];
      }
      if exists k :: 0 <= k < |ws| && WayFails(ws[k], b) {
        var k :| 0 <= k < |ws| && WayFails(ws[k], b);
        if k < |init| {
          assert init[k] == ws[k];
        }
      }
    }
  }

  /** Once a prefix of the ways fails, the whole loop fails with the same error. */
  lemma {:induction false} ProcessWaysErrorStays(ws: seq<RawWay>, t: nat, b: BBox)
    requires t <= |ws| && ProcessWays(ws[..t], b).Err?
    ensures ProcessWays(ws, b) == ProcessWays(ws[..t], b)
    decreases |ws| - t
  {
    if t < |ws| {
      assert ws[..t + 1][..t] == ws[..t];
      ProcessWaysErrorStays(ws, t + 1, b);
    } else {
      assert ws[..t] == ws;
    }
  }

  /** The node loop of lines 109-120 for one way. */
  method KeepNodes(nodes: seq<RawNode>, b: BBox) returns (nodeList: seq<Node>)
    ensures nodeList == KeptNodes(nodes, b)
  {
    nodeList := [];
    var k := 0;
    while k < |nodes|
      invariant 0 <= k <= |nodes|
      invariant nodeList == KeptNodes(nodes[..k], b)
    {
      var node := nodes[k];
      if node.lat >= b.latMin && node.lat <= b.latMax {
        if node.lon >= b.lonMin && node.lon <= b.lonMax {
          var nodeObject := NodeObject(node);
          if nodeObject !in nodeList {
            nodeList := nodeList + [nodeObject];
          }
        }
      }
      assert nodes[..k + 1][..k] == nodes[..k];
      k := k + 1;
    }
    assert nodes[..|nodes|] == nodes;
  }

  /** `process_streets_data` as the loops of lines 108-149. */
  method ProcessStreetsData(data: Option<StreetData>, b: BBox) returns (r: Result<Option<seq<Street>>, ExtractError>)
    ensures r == ProcessedStreets(data, b)
  {
    if data.None? {
      return Ok(None);
    }
    var ways := data.value.ways;
    var processed: seq<Street> := [];
    var t := 0;
    while t < |ways|
      invariant 0 <= t <= |ways|
      invariant ProcessWays(ways[..t], b) == Ok(processed)
    {
      var way := ways[t];
      var nodeList := KeepNodes(way.nodes, b);
      assert ways[..t + 1][..t] == ways[..t];
      if |nodeList| > 0 {
        var wayObject := WayObject(way, nodeList);
        if wayObject.Err? {
          ProcessWaysErrorStays(ways, t + 1, b);
          assert ways[..|ways|] == ways;
          return Err(wayObject.error);
        }
        processed := processed + [wayObject.value];
      }
      t := t + 1;
    }
    assert ways[..|ways|] == ways;
    return Ok(Some(processed));
  }
}
