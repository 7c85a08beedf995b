/** `allot_intersection`: marks the nodes that a street shares with another
    street's intersection record and names the intersection. */
module IntersectionAnnotator {
  import opened Wrappers
  import opened OsmData
  import Numerals
  import opened IntersectionDetector

  const Intersection: string := "intersection"

  /** The `f["name"]` of lines 277-301 for street `x` and the record `y` of
      another street: "A intersecting B" with A and B chosen by name > type >
      id, except when neither side has a name and exactly one has a type:
      then both sides fall back to their ids. */
  function IntersectionName(x: Street, y: IntersectionRecord): (r: string)
    ensures x.name.Some? || y.title.NameLabel? || (x.highway.Some? <==> y.title.TypeLabel?) ==>
            r == DescribeStreet(x) + " intersecting " + DescribeRecord(y)
    ensures x.name.None? && !y.title.NameLabel? && !(x.highway.Some? <==> y.title.TypeLabel?) ==>
            r == Numerals.IntToDecimal(x.streetId) + " intersecting " + Numerals.IntToDecimal(y.streetId)
  {
    var id1 := Numerals.IntToDecimal(x.streetId);
    var id2 := Numerals.IntToDecimal(y.streetId);
    if x.name.Some? && y.title.NameLabel? then
      x.name.value + " intersecting " + y.title.name
    else if x.name.None? && y.title.NameLabel? then
      (if x.highway.Some? then x.highway.value else id1) + " intersecting " + y.title.name
    else if x.name.Some? && !y.title.NameLabel? then
      x.name.value + " intersecting " + (if y.title.TypeLabel? then y.title.kind else id2)
    else if x.highway.Some? && y.title.TypeLabel? then
      x.highway.value + " intersecting " + y.title.kind
    else
      id1 + " intersecting " + id2
  }

  /** A street described by precedence: its name, else its type, else its id. */
  function DescribeStreet(x: Street): string
  {
    if x.name.Some? then x.name.value
    else if x.highway.Some? then x.highway.value
    else Numerals.IntToDecimal(x.streetId)
  }

  /** A record described by the same precedence. */
  function DescribeRecord(y: IntersectionRecord): string
  {
    match y.title
    case NameLabel(nm) => nm
    case TypeLabel(kind) => kind
    case NoLabel => Numerals.IntToDecimal(y.streetId)
  }

  /** `nodes[i]["cat"] = "intersection"` and `f["name"] = name`. */
  function Mark(n: Node, name: string): Node
  {
    n.(cat := Some(Intersection), name := Some(name))
  }

  /** The body of the innermost loop, for record `y` and its node `m`. */
  function Visit(n: Node, x: Street, y: IntersectionRecord, m: Node): Node
  {
    if x.streetId != y.streetId && n == m then Mark(n, IntersectionName(x, y)) else n
  }

  /** The innermost loop over `intersection_nodes` of record `y`. */
  function VisitNodes(n: Node, x: Street, y: IntersectionRecord, ms: seq<Node>): Node
  {
    if |ms| == 0 then n
    else Visit(VisitNodes(n, x, y, ms[..|ms| - 1]), x, y, ms[|ms| - 1])
  }

  /** The loop over the records, for one node `n` of street `x`. Only `cat`
      and `name` can change. */
  function VisitRecords(n: Node, x: Street, recs: seq<IntersectionRecord>): (r: Node)
    ensures r.(cat := n.cat, name := n.name) == n
  {
    if |recs| == 0 then n
    else
      var last := recs[|recs| - 1];
      var prev := VisitRecords(n, x, recs[..|recs| - 1]);
      VisitNodesOnlyMarks(prev, x, last, last.nodes);
      VisitNodes(prev, x, last, last.nodes)
  }

  lemma {:induction false} VisitNodesOnlyMarks(n: Node, x: Street, y: IntersectionRecord, ms: seq<Node>)
    ensures VisitNodes(n, x, y, ms).(cat := n.cat, name := n.name) == n
  {
    if |ms| > 0 {
      VisitNodesOnlyMarks(n, x, y, ms[..|ms| - 1]);
    }
  }

  /** Street `x` of the deep copy after the node loop: every node visited
      against every record, every other field unchanged. */
  function AnnotateStreet(x: Street, recs: seq<IntersectionRecord>): (r: Street)
    ensures r.(nodes := x.nodes) == x && |r.nodes| == |x.nodes|
    ensures forall i :: 0 <= i < |x.nodes| ==> r.nodes[i].(cat := x.nodes[i].cat, name := x.nodes[i].name) == x.nodes[i]
  {
    x.(nodes := seq(|x.nodes|, i requires 0 <= i < |x.nodes| => VisitRecords(x.nodes[i], x, recs)))
  }

  /** What `allot_intersection` returns. */
  function Annotated(ss: seq<Street>, recs: seq<IntersectionRecord>): seq<Street>
  {
    seq(|ss|, k requires 0 <= k < |ss| => AnnotateStreet(ss[k], recs))
  }

  /** The record nodes carry no intersection mark (true of the records
      `extract_street` builds from `process_streets_data`). */
  predicate NoMarkedNodes(recs: seq<IntersectionRecord>)
  {
    forall a, b :: 0 <= a < |recs| && 0 <= b < |recs[a].nodes| ==> recs[a].nodes[b].cat != Some(Intersection)
  }

  /** No node of the streets carries an intersection mark. */
  predicate NoMarkedStreets(ss: seq<Street>)
  {
    forall a, b :: 0 <= a < |ss| && 0 <= b < |ss[a].nodes| ==> ss[a].nodes[b].cat != Some(Intersection)
  }

  /** No node of the record carries an intersection mark. */
  predicate Unmarked(r: IntersectionRecord)
  {
    forall x :: x in r.nodes ==> x.cat != Some(Intersection)
  }

  /** Streets whose nodes are plain (as `process_streets_data` builds them)
      give records of `extract_street` without marked nodes. */
  lemma ExtractedUnmarked(ss: seq<Street>)
    requires forall a, b :: 0 <= a < |ss| && 0 <= b < |ss[a].nodes| ==> Plain(ss[a].nodes[b])
    ensures NoMarkedNodes(Extracted(ss))
  {
    assert NoMarkedStreets(ss);
    var recs := AllRecords(ss, |ss|);
    forall k | 0 <= k < |recs| ensures Unmarked(recs[k]) {
      AllRecordsUnmarked(ss, |ss|, k);
    }
    var g := Group(recs);
    forall k | 0 <= k < |g| ensures Unmarked(g[k]) {
      GroupUnmarked(recs, k);
    }
    forall a, b | 0 <= a < |KeepUnseenAll(g)| && 0 <= b < |KeepUnseenAll(g)[a].nodes|
      ensures KeepUnseenAll(g)[a].nodes[b].cat != Some(Intersection)
    {
      assert KeepUnseenAll(g)[a].nodes[b] in g[a].nodes;
    }
  }

  lemma PairUnmarked(ss: seq<Street>, i: nat, j: nat, r: IntersectionRecord)
    requires i < j < |ss| && NoMarkedStreets(ss) && r in PairRecords(ss, i, j)
    ensures Unmarked(r)
  {
    forall x | x in r.nodes ensures x.cat != Some(Intersection) {
      assert x in ss[i].nodes;
    }
  }

  lemma {:induction false} RowUnmarked(ss: seq<Street>, i: nat, jEnd: nat, r: IntersectionRecord)
    requires i < jEnd <= |ss| && NoMarkedStreets(ss) && r in RowRecords(ss, i, jEnd)
    ensures Unmarked(r)
    decreases jEnd
  {
    var prev, pair := RowRecords(ss, i, jEnd - 1), PairRecords(ss, i, jEnd - 1);
    assert RowRecords(ss, i, jEnd) == prev + pair;
    if r in prev {
      RowUnmarked(ss, i, jEnd - 1, r);
    } else {
      PairUnmarked(ss, i, jEnd - 1, r);
    }
  }

  lemma {:induction false} AllRecordsUnmarked(ss: seq<Street>, iEnd: nat, k: nat)
    requires iEnd <= |ss| && NoMarkedStreets(ss) && k < |AllRecords(ss, iEnd)|
    ensures Unmarked(AllRecords(ss, iEnd)[k])
  {
    var prev, row := AllRecords(ss, iEnd - 1), RowRecords(ss, iEnd - 1, |ss|);
    assert AllRecords(ss, iEnd) == prev + row;
    if k < |prev| {
      AllRecordsUnmarked(ss, iEnd - 1, k);
    } else {
      RowUnmarked(ss, iEnd - 1, |ss|, row[k - |prev|]);
    }
  }

  /** A grouped record holds only nodes of unmarked input records. */
  lemma {:induction false} GroupUnmarked(recs: seq<IntersectionRecord>, k: nat)
    requires forall r | r in recs :: Unmarked(r)
    requires k < |Group(recs)|
    ensures Unmarked(Group(recs)[k])
  {
    var init, r := recs[..|recs| - 1], recs[|recs| - 1];
    assert forall q | q in init :: q in recs;
    var g := Group(init);
    var m := IndexOf(g, r.streetId);
    if m == |g| {
      assert Group(recs) == g + [r];
      if k < |g| {
        GroupUnmarked(init, k);
      }
    } else {
      assert Group(recs) == g[m := g[m].(nodes := g[m].nodes + r.nodes)];
      GroupUnmarked(init, k);
      if k == m {
        assert r in recs;
        assert forall x | x in g[m].nodes + r.nodes :: x in g[m].nodes || x in r.nodes;
      }
    }
  }
  /** Node `n` of street `x` equals a node of record `y` of a different street. */
  predicate Matches(n: Node, x: Street, y: IntersectionRecord)
  {
    x.streetId != y.streetId && n in y.nodes
  }

  /** The position of the first record that matches `n`, or `|recs|`. */
  function FirstMatch(n: Node, x: Street, recs: seq<IntersectionRecord>): (f: nat)
    ensures f <= |recs|
    ensures f < |recs| ==> Matches(n, x, recs[f])
    ensures forall k :: 0 <= k < f ==> !Matches(n, x, recs[k])
  {
    if |recs| == 0 then 0
    else
      var f := FirstMatch(n, x, recs[..|recs| - 1]);
      if f < |recs| - 1 then f
      else if Matches(n, x, recs[|recs| - 1]) then |recs| - 1
      else |recs|
  }

  /** Once marked, a node equals no record node, so it stays as it is. */
  lemma {:induction false} VisitNodesMarked(n: Node, x: Street, y: IntersectionRecord, ms: seq<Node>)
    requires n.cat == Some(Intersection)
    requires forall b :: 0 <= b < |ms| ==> ms[b].cat != Some(Intersection)
    ensures VisitNodes(n, x, y, ms) == n
  {
    if |ms| > 0 {
      VisitNodesMarked(n, x, y, ms[..|ms| - 1]);
    }
  }

  /** An unmarked node is marked with `y`'s name if it equals one of `ms`. */
  lemma {:induction false} VisitNodesUnmarked(n: Node, x: Street, y: IntersectionRecord, ms: seq<Node>)
    requires n.cat != Some(Intersection)
    requires forall b :: 0 <= b < |ms| ==> ms[b].cat != Some(Intersection)
    ensures VisitNodes(n, x, y, ms) ==
            if x.streetId != y.streetId && n in ms then Mark(n, IntersectionName(x, y)) else n
  {
    if |ms| > 0 {
      var init := ms[..|ms| - 1];
      VisitNodesUnmarked(n, x, y, init);
      assert ms == init + [ms[|ms| - 1]];
      if x.streetId != y.streetId && n in init {
        VisitNodesMarked(Mark(n, IntersectionName(x, y)), x, y, [ms[|ms| - 1]]);
      }
    }
  }

  /** A node that is not yet marked is marked exactly when it equals a node of
      the record of a different street, and its name comes from the first such
      record; otherwise it is unchanged. */
  lemma {:induction false} AnnotateNode(n: Node, x: Street, recs: seq<IntersectionRecord>)
    requires NoMarkedNodes(recs) && n.cat != Some(Intersection)
    ensures var f := FirstMatch(n, x, recs);
            VisitRecords(n, x, recs) == if f < |recs| then Mark(n, IntersectionName(x, recs[f])) else n
  {
    if |recs| > 0 {
      var init := recs[..|recs| - 1];
      var last := recs[|recs| - 1];
      assert NoMarkedNodes(init) by {
        forall a, b | 0 <= a < |init| && 0 <= b < |init[a].nodes|
          ensures init[a].nodes[b].cat != Some(Intersection)
        {
          assert init[a] == recs[a];
        }
      }
      AnnotateNode(n, x, init);
      var f := FirstMatch(n, x, init);
      assert forall b :: 0 <= b < |last.nodes| ==> last.nodes[b].cat != Some(Intersection);
      if f < |init| {
        VisitNodesMarked(Mark(n, IntersectionName(x, init[f])), x, last, last.nodes);
      } else {
        VisitNodesUnmarked(n, x, last, last.nodes);
      }
    }
  }

  /** The "exactly when" of the marking, stated over the records. */
  lemma MarkedIffShared(n: Node, x: Street, recs: seq<IntersectionRecord>)
    requires NoMarkedNodes(recs) && n.cat != Some(Intersection)
    ensures VisitRecords(n, x, recs).cat == Some(Intersection) <==>
            exists k :: 0 <= k < |recs| && Matches(n, x, recs[k])
  {
    AnnotateNode(n, x, recs);
  }

  /** `allot_intersection` as the loops of lines 256-302, on a copy of the streets. */
  method AllotIntersection(ss: seq<Street>, inters: seq<IntersectionRecord>) returns (copy: seq<Street>)
    ensures copy == Annotated(ss, inters)
  {
    copy := ss;
    var obj := 0;
    while obj < |copy|
      invariant 0 <= obj <= |copy| == |ss|
      invariant forall k :: 0 <= k < obj ==> copy[k] == AnnotateStreet(ss[k], inters)
      invariant forall k :: obj <= k < |copy| ==> copy[k] == ss[k]
    {
      var x := copy[obj];
      var id1 := x.streetId;
      var nodes := x.nodes;
      var i := 0;
      while i < |nodes|
        invariant 0 <= i <= |nodes| == |x.nodes|
        invariant forall k :: 0 <= k < i ==> nodes[k] == VisitRecords(x.nodes[k], x, inters)
        invariant forall k :: i <= k < |nodes| ==> nodes[k] == x.nodes[k]
      {
        var objs := 0;
        while objs < |inters|
          invariant 0 <= objs <= |inters| && |nodes| == |x.nodes|
          invariant nodes[i] == VisitRecords(x.nodes[i], x, inters[..objs])
          invariant forall k :: 0 <= k < i ==> nodes[k] == VisitRecords(x.nodes[k], x, inters)
          invariant forall k :: i < k < |nodes| ==> nodes[k] == x.nodes[k]
        {
          var y := inters[objs];
          var id2 := y.streetId;
          var intersectionNodes := y.nodes;
          ghost var before := nodes[i];
          var items := 0;
          while items < |intersectionNodes|
            invariant 0 <= items <= |intersectionNodes| && |nodes| == |x.nodes|
            invariant nodes[i] == VisitNodes(before, x, y, intersectionNodes[..items])
            invariant forall k :: 0 <= k < i ==> nodes[k] == VisitRecords(x.nodes[k], x, inters)
            invariant forall k :: i < k < |nodes| ==> nodes[k] == x.nodes[k]
          {
            if id1 != id2 {
              if nodes[i] == intersectionNodes[items] {
                nodes := nodes[i := Mark(nodes[i], IntersectionName(x, y))];
              }
            }
            assert intersectionNodes[..items + 1][..items] == intersectionNodes[..items];
            items := items + 1;
          }
          assert intersectionNodes[..items] == intersectionNodes;
          assert inters[..objs + 1][..objs] == inters[..objs];
          objs := objs + 1;
        }
        assert inters[..objs] == inters;
        i := i + 1;
      }
      copy := copy[obj := x.(nodes := nodes)];
      obj := obj + 1;
    }
  }
}
