/** `compare_street` and `extract_street`: pairwise comparison of the streets'
    node lists and grouping of the results into one record per street id. */
module IntersectionDetector {
  import opened Seqs
  import opened OsmData

  /** `compare_street`: the nodes of `street1` that occur in `street2`
      (structural equality), in `street1`'s order. */
  function CompareStreet(street1: seq<Node>, street2: seq<Node>): (r: seq<Node>)
    ensures forall x :: x in r <==> x in street1 && x in street2
    ensures NoDup(street1) ==> NoDup(r)
  {
    if |street1| == 0 then []
    else
      var prev := CompareStreet(street1[..|street1| - 1], street2);
      var x := street1[|street1| - 1];
      assert street1 == street1[..|street1| - 1] + [x];
      if x in street2 then prev + [x] else prev
  }

  /** The common nodes are a subsequence of the first street's nodes. */
  lemma {:induction false} CompareStreetInOrder(street1: seq<Node>, street2: seq<Node>)
    ensures Subseq(CompareStreet(street1, street2), street1)
  {
    if |street1| > 0 {
      var init := street1[..|street1| - 1];
      var x := street1[|street1| - 1];
      CompareStreetInOrder(init, street2);
      assert init + [x] == street1;
      if x in street2 {
        SubseqAppendBoth(CompareStreet(init, street2), init, x);
      } else {
        SubseqExtend(CompareStreet(init, street2), init, x);
      }
    }
  }

  /** The label key a record takes from its own street: name, else type, else none. */
  function LabelOf(s: Street): Label
  {
    if s.name.Some? then NameLabel(s.name.value)
    else if s.highway.Some? then TypeLabel(s.highway.value)
    else NoLabel
  }

  /** The record for street i of a pair (lines 171-188). */
  function RecordI(si: Street, common: seq<Node>): IntersectionRecord
  {
    IntersectionRecord(si.streetId, LabelOf(si), common)
  }

  /** The record for street j of a pair as lines 189-205 write it: its middle
      branch tests street i's type and copies street i's id and type. */
  function RecordJ(si: Street, sj: Street, common: seq<Node>): (r: IntersectionRecord)
    ensures r.nodes == common
    ensures sj.name.Some? ==> r == RecordI(sj, common)
    ensures sj.name.None? && si.highway.Some? ==>
              r.streetId == si.streetId && r.title == TypeLabel(si.highway.value)
    ensures sj.name.None? && si.highway.None? ==> r.streetId == sj.streetId && r.title == NoLabel
  {
    if sj.name.Some? then IntersectionRecord(sj.streetId, NameLabel(sj.name.value), common)
    else if si.highway.Some? then IntersectionRecord(si.streetId, TypeLabel(si.highway.value), common)
    else IntersectionRecord(sj.streetId, NoLabel, common)
  }

  /** The record for street j is the one street j would build for itself
      exactly when j has a name, or neither street has a type. Otherwise it
      either names street i or omits j's type. */
  lemma RecordJAgreesWithOwnRecord(si: Street, sj: Street, common: seq<Node>)
    requires si.streetId != sj.streetId
    ensures RecordJ(si, sj, common) == RecordI(sj, common) <==>
            sj.name.Some? || (si.highway.None? && sj.highway.None?)
    ensures RecordJ(si, sj, common).streetId == sj.streetId <==> sj.name.Some? || si.highway.None?
  {
  }

  /** The two records appended for the pair (i, j) when it shares a node. */
  function PairRecords(ss: seq<Street>, i: nat, j: nat): seq<IntersectionRecord>
    requires i < j < |ss|
  {
    var common := CompareStreet(ss[i].nodes, ss[j].nodes);
    if |common| > 0 then [RecordI(ss[i], common), RecordJ(ss[i], ss[j], common)] else []
  }

  /** The records appended while `j` runs from `i + 1` up to (excluding) `jEnd`. */
  function RowRecords(ss: seq<Street>, i: nat, jEnd: nat): seq<IntersectionRecord>
    requires i < jEnd <= |ss|
    decreases jEnd
  {
    if jEnd == i + 1 then [] else RowRecords(ss, i, jEnd - 1) + PairRecords(ss, i, jEnd - 1)
  }

  /** `intersection_record` after the outer loop has handled `i` < `iEnd`. */
  function AllRecords(ss: seq<Street>, iEnd: nat): seq<IntersectionRecord>
    requires iEnd <= |ss|
  {
    if iEnd == 0 then [] else AllRecords(ss, iEnd - 1) + RowRecords(ss, iEnd - 1, |ss|)
  }

  /** The first position of a record with street id `id`, or `|g|`. */
  function IndexOf(g: seq<IntersectionRecord>, id: int): (k: nat)
    ensures k <= |g|
    ensures k < |g| ==> g[k].streetId == id
    ensures forall m :: 0 <= m < k ==> g[m].streetId != id
  {
    if |g| == 0 then 0
    else if g[0].streetId == id then 0
    else 1 + IndexOf(g[1..], id)
  }

  /** One step of the grouping loop: a new id gets the record, a known id has
      the record's nodes appended to its own. */
  function Insert(g: seq<IntersectionRecord>, r: IntersectionRecord): seq<IntersectionRecord>
  {
    var k := IndexOf(g, r.streetId);
    if k == |g| then g + [r]
    else g[k := g[k].(nodes := g[k].nodes + r.nodes)]
  }

  /** `list(output.values())`: the grouped records, in order of first appearance. */
  function Group(recs: seq<IntersectionRecord>): (g: seq<IntersectionRecord>)
    ensures forall a, b :: 0 <= a < b < |g| ==> g[a].streetId != g[b].streetId
    ensures |g| <= |recs|
  {
    if |recs| == 0 then []
    else Insert(Group(recs[..|recs| - 1]), recs[|recs| - 1])
  }

  /** The concatenation, in order, of the node lists of the records with street id `id`. */
  function NodesFor(recs: seq<IntersectionRecord>, id: int): seq<Node>
  {
    if |recs| == 0 then []
    else
      var r := recs[|recs| - 1];
      NodesFor(recs[..|recs| - 1], id) + if r.streetId == id then r.nodes else []
  }

  /** `recs[m]` is the first record with its street id. */
  predicate FirstOfId(recs: seq<IntersectionRecord>, m: int)
  {
    0 <= m < |recs| && forall m' :: 0 <= m' < m ==> recs[m'].streetId != recs[m].streetId
  }

  /** Inserting a record whose id is new appends it; otherwise only the
      record of that id changes, by appending the nodes. */
  lemma InsertFacts(g: seq<IntersectionRecord>, r: IntersectionRecord)
    ensures var k := IndexOf(g, r.streetId);
            (k == |g| ==> Insert(g, r) == g + [r]) &&
            (k < |g| ==>
              (|Insert(g, r)| == |g| &&
               Insert(g, r)[k] == g[k].(nodes := g[k].nodes + r.nodes) &&
               forall k' :: 0 <= k' < |g| && k' != k ==> Insert(g, r)[k'] == g[k']))
  {
  }

  /** Some record of `g` has street id `id`. */
  predicate HasRecordId(g: seq<IntersectionRecord>, id: int)
  {
    exists k :: 0 <= k < |g| && g[k].streetId == id
  }

  /** Inserting a record adds its id to the ids present and no other. */
  lemma InsertIds(g: seq<IntersectionRecord>, r: IntersectionRecord, id: int)
    ensures HasRecordId(Insert(g, r), id) <==> HasRecordId(g, id) || r.streetId == id
  {
    InsertFacts(g, r);
    var g' := Insert(g, r);
    var idx := IndexOf(g, r.streetId);
    assert g'[idx].streetId == r.streetId;
    assert forall k :: 0 <= k < |g| ==> g'[k].streetId == g[k].streetId;
    if HasRecordId(g', id) {
      var k :| 0 <= k < |g'| && g'[k].streetId == id;
      if k < |g| {
        assert g[k].streetId == id;
      }
    }
  }

  /** The ids of the records form the ids of the longer list and the last record's id. */
  lemma RecordIdsSplit(recs: seq<IntersectionRecord>, id: int)
    requires |recs| > 0
    ensures HasRecordId(recs, id) <==> HasRecordId(recs[..|recs| - 1], id) || recs[|recs| - 1].streetId == id
  {
    var init := recs[..|recs| - 1];
    if HasRecordId(init, id) {
      var m :| 0 <= m < |init| && init[m].streetId == id;
      assert recs[m] == init[m];
    }
    if HasRecordId(recs, id) {
      var m :| 0 <= m < |recs| && recs[m].streetId == id;
      if m < |init| {
        assert init[m] == recs[m];
      }
    }
  }

  /** A street id occurs in the grouped list exactly when some record has it. */
  lemma {:induction false} GroupHasId(recs: seq<IntersectionRecord>, id: int)
    ensures (exists k :: 0 <= k < |Group(recs)| && Group(recs)[k].streetId == id) <==>
            (exists m :: 0 <= m < |recs| && recs[m].streetId == id)
  {
    if |recs| > 0 {
      var init := recs[..|recs| - 1];
      GroupHasId(init, id);
      assert Group(recs) == Insert(Group(init), recs[|recs| - 1]);
      InsertIds(Group(init), recs[|recs| - 1], id);
      RecordIdsSplit(recs, id);
    }
  }

  lemma {:induction false} NodesForAbsent(recs: seq<IntersectionRecord>, id: int)
    requires forall m :: 0 <= m < |recs| ==> recs[m].streetId != id
    ensures NodesFor(recs, id) == []
  {
    if |recs| > 0 {
      NodesForAbsent(recs[..|recs| - 1], id);
    }
  }

  /** Each grouped record holds all nodes of its id's records, concatenated in order. */
  lemma {:induction false} GroupNodes(recs: seq<IntersectionRecord>, k: nat)
    requires k < |Group(recs)|
    ensures Group(recs)[k].nodes == NodesFor(recs, Group(recs)[k].streetId)
  {
    var init := recs[..|recs| - 1];
    var r := recs[|recs| - 1];
    var g0 := Group(init);
    var idx := IndexOf(g0, r.streetId);
    var id := Group(recs)[k].streetId;
    InsertFacts(g0, r);
    if k == |g0| {
      assert idx == |g0| && id == r.streetId;
      GroupHasId(init, id);
      NodesForAbsent(init, id);
    } else {
      GroupNodes(init, k);
      assert g0[k].streetId == id;
    }
  }

  /** Each grouped record carries the title of the first record of its id. */
  lemma {:induction false} GroupTitle(recs: seq<IntersectionRecord>, k: nat)
    requires k < |Group(recs)|
    ensures exists m :: FirstOfId(recs, m) && recs[m].streetId == Group(recs)[k].streetId &&
                        recs[m].title == Group(recs)[k].title
  {
    var init := recs[..|recs| - 1];
    var r := recs[|recs| - 1];
    var g0 := Group(init);
    var idx := IndexOf(g0, r.streetId);
    InsertFacts(g0, r);
    if k == |g0| {
      GroupHasId(init, r.streetId);
      assert FirstOfId(recs, |recs| - 1);
    } else {
      GroupTitle(init, k);
      var m :| FirstOfId(init, m) && init[m].streetId == g0[k].streetId && init[m].title == g0[k].title;
      assert recs[m] == init[m];
      assert FirstOfId(recs, m);
    }
  }

  /** `[x for x in s if x not in seen]`. */
  function KeepUnseen(s: seq<Node>, seen: seq<Node>): (r: seq<Node>)
    ensures forall x :: x in r <==> x in s && x !in seen
  {
    if |s| == 0 then []
    else
      var x := s[|s| - 1];
      assert s == s[..|s| - 1] + [x];
      KeepUnseen(s[..|s| - 1], seen) + if x !in seen then [x] else []
  }

  /** Line 246 filters against `unique_set` while it is still empty, so it
      removes nothing. */
  lemma {:induction false} KeepUnseenOfNothing(s: seq<Node>)
    ensures KeepUnseen(s, []) == s
  {
    if |s| > 0 {
      var init := s[..|s| - 1];
      KeepUnseenOfNothing(init);
      assert KeepUnseen(s, []) == KeepUnseen(init, []) + [s[|s| - 1]];
      LastSplit(s);
    }
  }

  /** The "unique set" pass over every grouped record. */
  function KeepUnseenAll(g: seq<IntersectionRecord>): (r: seq<IntersectionRecord>)
  {
    seq(|g|, k requires 0 <= k < |g| => g[k].(nodes := KeepUnseen(g[k].nodes, [])))
  }

  /** What `extract_street` returns. */
  function Extracted(ss: seq<Street>): seq<IntersectionRecord>
  {
    KeepUnseenAll(Group(AllRecords(ss, |ss|)))
  }

  /** One record per street id, and each record's nodes are the
      concatenation, in pair-visiting order, of that id's common-node lists,
      repeats included. */
  lemma ExtractedRecords(ss: seq<Street>, k: nat)
    requires k < |Extracted(ss)|
    ensures forall k' :: 0 <= k' < |Extracted(ss)| && k' != k ==> Extracted(ss)[k'].streetId != Extracted(ss)[k].streetId
    ensures Extracted(ss)[k].nodes == NodesFor(AllRecords(ss, |ss|), Extracted(ss)[k].streetId)
  {
    var g := Group(AllRecords(ss, |ss|));
    GroupNodes(AllRecords(ss, |ss|), k);
    KeepUnseenOfNothing(g[k].nodes);
  }

  lemma {:induction false} NodesForMember(recs: seq<IntersectionRecord>, m: nat, x: Node)
    requires m < |recs| && x in recs[m].nodes
    ensures x in NodesFor(recs, recs[m].streetId)
  {
    if m < |recs| - 1 {
      NodesForMember(recs[..|recs| - 1], m, x);
    }
  }

  lemma {:induction false} RowRecordsContain(ss: seq<Street>, i: nat, j: nat, jEnd: nat, r: IntersectionRecord)
    requires i < j < jEnd <= |ss| && r in PairRecords(ss, i, j)
    ensures r in RowRecords(ss, i, jEnd)
    decreases jEnd
  {
    if j < jEnd - 1 {
      RowRecordsContain(ss, i, j, jEnd - 1, r);
      assert r in RowRecords(ss, i, jEnd - 1);
    } else {
      assert r in PairRecords(ss, i, jEnd - 1);
    }
  }

  lemma InAppend(r: IntersectionRecord, a: seq<IntersectionRecord>, b: seq<IntersectionRecord>)
    ensures r in a + b <==> r in a || r in b
  {
  }

  lemma {:induction false} AllRecordsContain(ss: seq<Street>, i: nat, iEnd: nat, r: IntersectionRecord)
    requires i < iEnd <= |ss| && r in RowRecords(ss, i, |ss|)
    ensures r in AllRecords(ss, iEnd)
  {
    var prev, row := AllRecords(ss, iEnd - 1), RowRecords(ss, iEnd - 1, |ss|);
    assert AllRecords(ss, iEnd) == prev + row;
    if i < iEnd - 1 {
      AllRecordsContain(ss, i, iEnd - 1, r);
      InAppend(r, prev, row);
    } else {
      InAppend(r, prev, row);
    }
  }

  /** The record of `id`, if some record of the input carries a node `x`, contains `x`. */
  lemma RecordedNodeSurvives(ss: seq<Street>, r: IntersectionRecord, x: Node)
    requires r in AllRecords(ss, |ss|) && x in r.nodes
    ensures exists k :: 0 <= k < |Extracted(ss)| && Extracted(ss)[k].streetId == r.streetId && x in Extracted(ss)[k].nodes
  {
    var recs := AllRecords(ss, |ss|);
    var m :| 0 <= m < |recs| && recs[m] == r;
    GroupHasId(recs, r.streetId);
    var k :| 0 <= k < |Group(recs)| && Group(recs)[k].streetId == r.streetId;
    GroupNodes(recs, k);
    NodesForMember(recs, m, x);
    KeepUnseenOfNothing(Group(recs)[k].nodes);
    assert Extracted(ss)[k].nodes == Group(recs)[k].nodes;
  }

  /** A node shared by streets i < j appears in the extracted record of
      street i; in street j's record too unless the middle branch of the
      j-record applies (j unnamed and i typed). */
  lemma SharedNodeRecorded(ss: seq<Street>, i: nat, j: nat, x: Node)
    requires i < j < |ss| && x in ss[i].nodes && x in ss[j].nodes
    ensures exists k :: 0 <= k < |Extracted(ss)| && Extracted(ss)[k].streetId == ss[i].streetId && x in Extracted(ss)[k].nodes
    ensures ss[j].name.Some? || ss[i].highway.None? ==>
            exists k :: 0 <= k < |Extracted(ss)| && Extracted(ss)[k].streetId == ss[j].streetId && x in Extracted(ss)[k].nodes
  {
    var common := CompareStreet(ss[i].nodes, ss[j].nodes);
    assert x in common;
    RowRecordsContain(ss, i, j, |ss|, RecordI(ss[i], common));
    AllRecordsContain(ss, i, |ss|, RecordI(ss[i], common));
    RowRecordsContain(ss, i, j, |ss|, RecordJ(ss[i], ss[j], common));
    AllRecordsContain(ss, i, |ss|, RecordJ(ss[i], ss[j], common));
    RecordedNodeSurvives(ss, RecordI(ss[i], common), x);
    RecordedNodeSurvives(ss, RecordJ(ss[i], ss[j], common), x);
  }

  /** `extract_street`, lines 162-251: the pair loop, the grouping loop and
      the "unique set" loop. */
  method ExtractStreet(ss: seq<Street>) returns (updated: seq<IntersectionRecord>)
    ensures updated == Extracted(ss)
  {
    var intersectionRecord := CollectPairRecords(ss);
    var grouped := GroupById(intersectionRecord);
    updated := KeepUniqueNodes(grouped);
  }

  /** Lines 163-206: every pair i < j that shares a node appends two records. */
  method CollectPairRecords(ss: seq<Street>) returns (intersectionRecord: seq<IntersectionRecord>)
    ensures intersectionRecord == AllRecords(ss, |ss|)
  {
    intersectionRecord := [];
    var i := 0;
    while i < |ss|
      invariant 0 <= i <= |ss|
      invariant intersectionRecord == AllRecords(ss, i)
    {
      intersectionRecord := CollectRow(ss, i, intersectionRecord);
      i := i + 1;
    }
  }

  /** The inner loop of lines 165-206 for street `i`. */
  method CollectRow(ss: seq<Street>, i: nat, acc: seq<IntersectionRecord>) returns (out: seq<IntersectionRecord>)
    requires i < |ss|
    ensures out == acc + RowRecords(ss, i, |ss|)
  {
    out := acc;
    var j := i + 1;
    while j < |ss|
      invariant i + 1 <= j <= |ss|
      invariant out == acc + RowRecords(ss, i, j)
    {
      var intersectingPoints := CompareStreet(ss[i].nodes, ss[j].nodes);
      RowStep(ss, i, j, acc, out);
      if |intersectingPoints| > 0 {
        out := out + [RecordI(ss[i], intersectingPoints)];
        out := out + [RecordJ(ss[i], ss[j], intersectingPoints)];
      }
      j := j + 1;
    }
  }

  /** One turn of the inner loop of lines 165-206 extends the row by the pair's records. */
  lemma RowStep(ss: seq<Street>, i: nat, j: nat, acc: seq<IntersectionRecord>, out: seq<IntersectionRecord>)
    requires i < j < |ss| && out == acc + RowRecords(ss, i, j)
    ensures var common := CompareStreet(ss[i].nodes, ss[j].nodes);
      if |common| > 0
      then out + [RecordI(ss[i], common)] + [RecordJ(ss[i], ss[j], common)] == acc + RowRecords(ss, i, j + 1)
      else out == acc + RowRecords(ss, i, j + 1)
  {
    assert RowRecords(ss, i, j + 1) == RowRecords(ss, i, j) + PairRecords(ss, i, j);
  }

  /** The dict `output` with insertion order `keys` holds the records `g`. */
  ghost predicate Represents(output: map<int, IntersectionRecord>, keys: seq<int>, g: seq<IntersectionRecord>)
  {
    && |keys| == |g|
    && (forall k :: 0 <= k < |keys| ==> keys[k] in output && output[keys[k]] == g[k] && g[k].streetId == keys[k])
    && (forall id :: id in output ==> id in keys)
  }

  lemma RepresentsNewId(output: map<int, IntersectionRecord>, keys: seq<int>, g: seq<IntersectionRecord>, obj: IntersectionRecord)
    requires Represents(output, keys, g) && obj.streetId !in output
    ensures Represents(output[obj.streetId := obj], keys + [obj.streetId], Insert(g, obj))
  {
    InsertFacts(g, obj);
    assert IndexOf(g, obj.streetId) == |g|;
  }

  lemma RepresentsKnownId(output: map<int, IntersectionRecord>, keys: seq<int>, g: seq<IntersectionRecord>, obj: IntersectionRecord)
    requires Represents(output, keys, g) && obj.streetId in output
    requires forall a, b :: 0 <= a < b < |g| ==> g[a].streetId != g[b].streetId
    ensures var existing := output[obj.streetId];
            Represents(output[obj.streetId := existing.(nodes := existing.nodes + obj.nodes)], keys, Insert(g, obj))
  {
    InsertFacts(g, obj);
    var k :| 0 <= k < |keys| && keys[k] == obj.streetId;
    assert IndexOf(g, obj.streetId) == k;
  }

  /** Lines 208-241: the `output` dict keyed by street id; `keys` is its
      insertion order, which `output.values()` follows. */
  method GroupById(intersectionRecord: seq<IntersectionRecord>) returns (grouped: seq<IntersectionRecord>)
    ensures grouped == Group(intersectionRecord)
  {
    var output: map<int, IntersectionRecord> := map[];
    var keys: seq<int> := [];
    var t := 0;
    while t < |intersectionRecord|
      invariant 0 <= t <= |intersectionRecord|
      invariant Represents(output, keys, Group(intersectionRecord[..t]))
    {
      var obj := intersectionRecord[t];
      ghost var g := Group(intersectionRecord[..t]);
      GroupSnoc(intersectionRecord, t);
      var streetId := obj.streetId;
      if streetId !in output {
        RepresentsNewId(output, keys, g, obj);
        output := output[streetId := obj];
        keys := keys + [streetId];
      } else {
        RepresentsKnownId(output, keys, g, obj);
        var existingRecord := output[streetId];
        existingRecord := existingRecord.(nodes := existingRecord.nodes + obj.nodes);
        output := output[streetId := existingRecord];
      }
      t := t + 1;
    }
    assert intersectionRecord[..t] == intersectionRecord;
    grouped := seq(|keys|, k requires 0 <= k < |keys| && keys[k] in output => output[keys[k]]);
    RepresentsValues(output, keys, Group(intersectionRecord), grouped);
  }

  lemma GroupSnoc(recs: seq<IntersectionRecord>, t: nat)
    requires t < |recs|
    ensures Group(recs[..t + 1]) == Insert(Group(recs[..t]), recs[t])
  {
    assert recs[..t + 1][..t] == recs[..t];
  }

  /** The values of the dict, in insertion order, are the grouped records. */
  lemma RepresentsValues(output: map<int, IntersectionRecord>, keys: seq<int>, g: seq<IntersectionRecord>, values: seq<IntersectionRecord>)
    requires Represents(output, keys, g)
    requires |values| == |keys| && forall k :: 0 <= k < |keys| ==> keys[k] in output && values[k] == output[keys[k]]
    ensures values == g
  {
  }

  /** Lines 243-250: each record's nodes are replaced by the comprehension of line 246. */
  method KeepUniqueNodes(grouped: seq<IntersectionRecord>) returns (updated: seq<IntersectionRecord>)
    ensures updated == KeepUnseenAll(grouped)
  {
    updated := grouped;
    var obj := 0;
    while obj < |updated|
      invariant 0 <= obj <= |updated| == |grouped|
      invariant forall k :: 0 <= k < obj ==> updated[k] == grouped[k].(nodes := KeepUnseen(grouped[k].nodes, []))
      invariant forall k :: obj <= k < |updated| ==> updated[k] == grouped[k]
    {
      var uniqueSet: seq<Node> := [];
      var interSets := updated[obj].nodes;
      uniqueSet := KeepUnseen(interSets, uniqueSet);
      updated := updated[obj := updated[obj].(nodes := uniqueSet)];
      obj := obj + 1;
    }
  }
}
