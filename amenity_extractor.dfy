/** The part of `get_amenities` after the fetch: amenity features inside the
    box become amenity records. */
module AmenityExtractor {
  import opened Wrappers
  import opened Seqs
  import opened OsmData
  import opened BoundingBox

  /** A node, way or relation of the amenity query; for a way or a relation
      `lat` and `lon` are the centre that the query's `out center` returns. */
  datatype Feature = Feature(id: int, lat: real, lon: real, tags: seq<Tag>)

  /** The answer to the amenity query. */
  datatype AmenityData = AmenityData(nodes: seq<Feature>, ways: seq<Feature>, relations: seq<Feature>)

  /** A feature inside the box without an amenity tag, met before any record
      was built: `amenity_record` is unbound and Python raises `UnboundLocalError`. */
  datatype AmenityError = RecordUnbound(featureId: int)

  /** The keys every record starts with. */
  predicate IsBaseKey(key: string)
  {
    key == "id" || key == "lat" || key == "lon" || key == "name" || key == "cat"
  }

  predicate HasKey(ts: seq<Tag>, key: string)
  {
    exists k :: 0 <= k < |ts| && ts[k].key == key
  }

  /** The value test of lines 348-350: differs from the name tag (which may be
      absent) and from the amenity value. */
  predicate Qualifies(t: Tag, name: Option<string>, amenity: string)
  {
    name != Some(t.value) && t.value != amenity
  }

  /** The extra tags of lines 347-352, in tag order: a qualifying tag is added
      unless its key is already in the record. */
  function ExtraTags(tags: seq<Tag>, name: Option<string>, amenity: string): (r: seq<Tag>)
    ensures forall k :: 0 <= k < |r| ==> r[k] in tags && Qualifies(r[k], name, amenity) && !IsBaseKey(r[k].key)
    ensures forall a, b :: 0 <= a < b < |r| ==> r[a].key != r[b].key
  {
    if |tags| == 0 then []
    else
      var prev := ExtraTags(tags[..|tags| - 1], name, amenity);
      var t := tags[|tags| - 1];
      assert tags == tags[..|tags| - 1] + [t];
      if Qualifies(t, name, amenity) && !IsBaseKey(t.key) && !HasKey(prev, t.key) then prev + [t] else prev
  }

  /** Every qualifying tag whose key is not a base key has its key among the
      extras, and the extra with that key is the first qualifying tag with it. */
  lemma {:induction false} ExtraTagsFirstKeyWins(tags: seq<Tag>, name: Option<string>, amenity: string, k: nat)
    requires k < |tags| && Qualifies(tags[k], name, amenity) && !IsBaseKey(tags[k].key)
    ensures exists e :: 0 <= e < |ExtraTags(tags, name, amenity)| &&
              ExtraTags(tags, name, amenity)[e].key == tags[k].key &&
              exists k' :: 0 <= k' <= k && tags[k'] == ExtraTags(tags, name, amenity)[e] &&
                forall k'' :: 0 <= k'' < k' ==> !(tags[k''].key == tags[k].key && Qualifies(tags[k''], name, amenity))
  {
    var init := tags[..|tags| - 1];
    var key := tags[k].key;
    if k < |init| {
      assert init[k] == tags[k];
      ExtraTagsFirstKeyWins(init, name, amenity, k);
      ExtraTagsLift(tags, init, name, amenity, key, k);
    } else if j :| 0 <= j < |init| && init[j].key == key && Qualifies(init[j], name, amenity) {
      ExtraTagsFirstKeyWins(init, name, amenity, j);
      ExtraTagsLift(tags, init, name, amenity, key, j);
    } else {
      ExtraTagsAppends(tags, name, amenity);
      assert ExtraTags(tags, name, amenity)[|ExtraTags(init, name, amenity)|] == tags[k];
    }
  }

  /** What the extras of all tags but the last say about a key carries over to all tags. */
  lemma ExtraTagsLift(tags: seq<Tag>, init: seq<Tag>, name: Option<string>, amenity: string, key: string, j: nat)
    requires 0 < |tags| && init == tags[..|tags| - 1] && j < |init|
    requires var prev := ExtraTags(init, name, amenity);
             exists e :: 0 <= e < |prev| && prev[e].key == key &&
               exists k' :: 0 <= k' <= j && init[k'] == prev[e] &&
                 forall k'' :: 0 <= k'' < k' ==> !(init[k''].key == key && Qualifies(init[k''], name, amenity))
    ensures exists e :: 0 <= e < |ExtraTags(tags, name, amenity)| &&
              ExtraTags(tags, name, amenity)[e].key == key &&
              exists k' :: 0 <= k' <= j && tags[k'] == ExtraTags(tags, name, amenity)[e] &&
                forall k'' :: 0 <= k'' < k' ==> !(tags[k''].key == key && Qualifies(tags[k''], name, amenity))
  {
    var prev := ExtraTags(init, name, amenity);
    var r := ExtraTags(tags, name, amenity);
    var e :| 0 <= e < |prev| && prev[e].key == key &&
             exists k' :: 0 <= k' <= j && init[k'] == prev[e] &&
               forall k'' :: 0 <= k'' < k' ==> !(init[k''].key == key && Qualifies(init[k''], name, amenity));
    var k' :| 0 <= k' <= j && init[k'] == prev[e] &&
              forall k'' :: 0 <= k'' < k' ==> !(init[k''].key == key && Qualifies(init[k''], name, amenity));
    assert r[e] == prev[e];
    assert tags[k'] == init[k'];
    forall k'' | 0 <= k'' < k' ensures !(tags[k''].key == key && Qualifies(tags[k''], name, amenity)) {
      assert tags[k''] == init[k''];
    }
  }

  /** A qualifying last tag whose key no earlier qualifying tag has is appended. */
  lemma ExtraTagsAppends(tags: seq<Tag>, name: Option<string>, amenity: string)
    requires |tags| > 0
    requires var t := tags[|tags| - 1]; Qualifies(t, name, amenity) && !IsBaseKey(t.key)
    requires forall j :: 0 <= j < |tags| - 1 ==>
               !(tags[j].key == tags[|tags| - 1].key && Qualifies(tags[j], name, amenity))
    ensures ExtraTags(tags, name, amenity) == ExtraTags(tags[..|tags| - 1], name, amenity) + [tags[|tags| - 1]]
  {
    var init := tags[..|tags| - 1];
    var prev := ExtraTags(init, name, amenity);
    var key := tags[|tags| - 1].key;
    forall e | 0 <= e < |prev| ensures prev[e].key != key {
      var j :| 0 <= j < |init| && init[j] == prev[e];
      assert tags[j] == init[j];
    }
  }

  /** The dict filter of lines 355-356: keys with a falsy value (None, 0,
      0.0, an empty string) are removed; so is an empty key. */
  function DropFalsy(r: AmenityRecord): (d: AmenityRecord)
    ensures Falsyless(d)
    ensures (d.id.Some? ==> d.id == r.id) && (r.id.Some? && r.id.value != 0 ==> d.id == r.id)
    ensures (d.lat.Some? ==> d.lat == r.lat) && (r.lat.Some? && r.lat.value != 0.0 ==> d.lat == r.lat)
    ensures (d.lon.Some? ==> d.lon == r.lon) && (r.lon.Some? && r.lon.value != 0.0 ==> d.lon == r.lon)
    ensures (d.name.Some? ==> d.name == r.name) && (r.name.Some? && r.name.value != "" ==> d.name == r.name)
    ensures (d.cat.Some? ==> d.cat == r.cat) && (r.cat.Some? && r.cat.value != "" ==> d.cat == r.cat)
    ensures d.extra == TruthyTags(r.extra)
  {
    AmenityRecord(
      if r.id.Some? && r.id.value != 0 then r.id else None,
      if r.lat.Some? && r.lat.value != 0.0 then r.lat else None,
      if r.lon.Some? && r.lon.value != 0.0 then r.lon else None,
      if r.name.Some? && r.name.value != "" then r.name else None,
      if r.cat.Some? && r.cat.value != "" then r.cat else None,
      TruthyTags(r.extra))
  }

  /** A tag whose key and value are both non-empty strings. */
  predicate Truthy(t: Tag)
  {
    t.key != "" && t.value != ""
  }

  function TruthyTags(ts: seq<Tag>): (r: seq<Tag>)
    ensures forall k :: 0 <= k < |r| ==> r[k] in ts && Truthy(r[k])
  {
    if |ts| == 0 then []
    else
      var t := ts[|ts| - 1];
      assert ts == ts[..|ts| - 1] + [t];
      TruthyTags(ts[..|ts| - 1]) + if Truthy(t) then [t] else []
  }

  /** No key of the record holds a falsy value. */
  predicate Falsyless(r: AmenityRecord)
  {
    && (r.id.Some? ==> r.id.value != 0)
    && (r.lat.Some? ==> r.lat.value != 0.0)
    && (r.lon.Some? ==> r.lon.value != 0.0)
    && (r.name.Some? ==> r.name.value != "")
    && (r.cat.Some? ==> r.cat.value != "")
    && (forall k :: 0 <= k < |r.extra| ==> Truthy(r.extra[k]))
  }

  /** The filter keeps tags in their order. */
  lemma {:induction false} TruthyTagsInOrder(ts: seq<Tag>)
    ensures Subseq(TruthyTags(ts), ts)
  {
    if |ts| > 0 {
      var init, t := ts[..|ts| - 1], ts[|ts| - 1];
      TruthyTagsInOrder(init);
      LastSplit(ts);
      if Truthy(t) {
        SubseqAppendBoth(TruthyTags(init), init, t);
      } else {
        assert TruthyTags(ts) == TruthyTags(init) + [];
        SubseqExtend(TruthyTags(init), init, t);
        assert Subseq(TruthyTags(init), init + [t]);
        assert TruthyTags(ts) == TruthyTags(init);
      }
    }
  }

  /** The filter drops only falsy tags: every truthy tag is kept. */
  lemma {:induction false} TruthyTagsComplete(ts: seq<Tag>, k: nat)
    requires k < |ts| && Truthy(ts[k])
    ensures ts[k] in TruthyTags(ts)
  {
    var init := ts[..|ts| - 1];
    if k < |init| {
      assert ts[k] == init[k];
      TruthyTagsComplete(init, k);
    }
  }

  lemma {:induction false} TruthyTagsKeepsTruthy(ts: seq<Tag>)
    requires forall k :: 0 <= k < |ts| ==> Truthy(ts[k])
    ensures TruthyTags(ts) == ts
  {
    if |ts| > 0 {
      var init, t := ts[..|ts| - 1], ts[|ts| - 1];
      assert Truthy(t);
      assert forall k :: 0 <= k < |init| ==> Truthy(init[k]) by {
        forall k | 0 <= k < |init| ensures Truthy(init[k]) {
          assert init[k] == ts[k];
        }
      }
      TruthyTagsKeepsTruthy(init);
      calc {
        TruthyTags(ts);
        TruthyTags(init) + [t];
        init + [t];
        { LastSplit(ts); }
        ts;
      }
    }
  }

  /** The `amenity_record` of a feature that has an amenity tag, after the
      falsy-value filter. */
  function AmenityRecordOf(f: Feature): (r: AmenityRecord)
    requires GetTag(f.tags, "amenity").Some?
    ensures Falsyless(r)
    ensures r.id == (if f.id != 0 then Some(f.id) else None)
    ensures r.lat == (if f.lat != 0.0 then Some(f.lat) else None)
    ensures r.lon == (if f.lon != 0.0 then Some(f.lon) else None)
    ensures r.cat.Some? <==> GetTag(f.tags, "amenity").value != ""
    ensures r.cat.Some? ==> r.cat == GetTag(f.tags, "amenity")
    ensures r.name.Some? <==> GetTag(f.tags, "name").Some? && GetTag(f.tags, "name").value != ""
    ensures r.name.Some? ==> r.name == GetTag(f.tags, "name")
    ensures r.extra == TruthyTags(ExtraTags(f.tags, GetTag(f.tags, "name"), GetTag(f.tags, "amenity").value))
    ensures forall k :: 0 <= k < |r.extra| ==>
              r.extra[k] in f.tags && !IsBaseKey(r.extra[k].key) &&
              Some(r.extra[k].value) != GetTag(f.tags, "name") && Some(r.extra[k].value) != GetTag(f.tags, "amenity")
    ensures forall a, b :: 0 <= a < b < |r.extra| ==> r.extra[a].key != r.extra[b].key
  {
    var name := GetTag(f.tags, "name");
    var amenity := GetTag(f.tags, "amenity").value;
    var extra := ExtraTags(f.tags, name, amenity);
    var r := DropFalsy(AmenityRecord(Some(f.id), Some(f.lat), Some(f.lon), name, Some(amenity), extra));
    assert forall k :: 0 <= k < |r.extra| ==> r.extra[k] in extra;
    assert forall a, b :: 0 <= a < b < |r.extra| ==> r.extra[a].key != r.extra[b].key by {
      TruthyTagsDistinctKeys(extra);
    }
    r
  }

  lemma {:induction false} TruthyTagsDistinctKeys(ts: seq<Tag>)
    requires forall a, b :: 0 <= a < b < |ts| ==> ts[a].key != ts[b].key
    ensures forall a, b :: 0 <= a < b < |TruthyTags(ts)| ==> TruthyTags(ts)[a].key != TruthyTags(ts)[b].key
  {
    if |ts| > 0 {
      var init := ts[..|ts| - 1];
      TruthyTagsDistinctKeys(init);
      var t := ts[|ts| - 1];
      forall e | 0 <= e < |TruthyTags(init)| ensures TruthyTags(init)[e].key != t.key {
        var j :| 0 <= j < |init| && init[j] == TruthyTags(init)[e];
        assert ts[j] == init[j];
      }
    }
  }

  /** The loop variables shared by the three loops: the list `amenity` and the
      last `amenity_record` built. */
  datatype FilterState = FilterState(out: seq<AmenityRecord>, last: Option<AmenityRecord>)

  /** One iteration: a feature outside the box is skipped; inside, a feature
      with an amenity tag gets a new record, and one without appends the
      previous record again (lines 355-357 sit outside the tag test). */
  function FilterStep(st: FilterState, f: Feature, b: BBox): (r: Result<FilterState, AmenityError>)
    ensures !Inside(b, f.lat, f.lon) ==> r == Ok(st)
    ensures r.Err? <==> Inside(b, f.lat, f.lon) && GetTag(f.tags, "amenity").None? && st.last.None?
    ensures r.Err? ==> r.error == RecordUnbound(f.id)
    ensures r.Ok? && Inside(b, f.lat, f.lon) ==>
              |r.value.out| == |st.out| + 1 && r.value.out[..|st.out|] == st.out &&
              r.value.last == Some(r.value.out[|st.out|]) && Falsyless(r.value.out[|st.out|])
    ensures r.Ok? && Inside(b, f.lat, f.lon) && GetTag(f.tags, "amenity").Some? ==>
              r.value.out[|st.out|] == AmenityRecordOf(f)
  {
    if !Inside(b, f.lat, f.lon) then Ok(st)
    else if GetTag(f.tags, "amenity").Some? then
      var rec := AmenityRecordOf(f);
      Ok(FilterState(st.out + [rec], Some(rec)))
    else
      match st.last
      case None => Err(RecordUnbound(f.id))
      case Some(rec) =>
        var again := DropFalsy(rec);
        Ok(FilterState(st.out + [again], Some(again)))
  }

  /** One of the three loops (nodes, ways, relations). */
  function FilterFeatures(fs: seq<Feature>, b: BBox, st: FilterState): Result<FilterState, AmenityError>
  {
    if |fs| == 0 then Ok(st)
    else
      match FilterFeatures(fs[..|fs| - 1], b, st)
      case Err(e) => Err(e)
      case Ok(mid) => FilterStep(mid, fs[|fs| - 1], b)
  }

  /** The amenity list `get_amenities` returns for the fetched data; `None`
      (every server down) gives the empty list. */
  function Amenities(data: Option<AmenityData>, b: BBox): Result<seq<AmenityRecord>, AmenityError>
  {
    match data
    case None => Ok([])
    case Some(d) =>
      match FilterFeatures(d.nodes, b, FilterState([], None))
      case Err(e) => Err(e)
      case Ok(s1) =>
        match FilterFeatures(d.ways, b, s1)
        case Err(e) => Err(e)
        case Ok(s2) =>
          match FilterFeatures(d.relations, b, s2)
          case Err(e) => Err(e)
          case Ok(s3) => Ok(s3.out)
  }

  /** The features inside the box, in order. */
  function InsideFeatures(fs: seq<Feature>, b: BBox): seq<Feature>
  {
    if |fs| == 0 then []
    else
      var f := fs[|fs| - 1];
      InsideFeatures(fs[..|fs| - 1], b) + if Inside(b, f.lat, f.lon) then [f] else []
  }

  /** Every feature inside the box carries an amenity tag (what the query asks the server for). */
  predicate AllTagged(fs: seq<Feature>, b: BBox)
  {
    forall k :: 0 <= k < |fs| && Inside(b, fs[k].lat, fs[k].lon) ==> GetTag(fs[k].tags, "amenity").Some?
  }

  /** When every feature inside the box is tagged, the loop appends exactly one
      record per such feature, in order, and nothing for a feature outside. */
  lemma {:induction false} FilterFeaturesTagged(fs: seq<Feature>, b: BBox, st: FilterState)
    requires AllTagged(fs, b)
    ensures FilterFeatures(fs, b, st).Ok?
    ensures var out := FilterFeatures(fs, b, st).value.out;
            var inside := InsideFeatures(fs, b);
            |out| == |st.out| + |inside| && out[..|st.out|] == st.out &&
            forall k :: 0 <= k < |inside| ==>
              Inside(b, inside[k].lat, inside[k].lon) && GetTag(inside[k].tags, "amenity").Some? &&
              out[|st.out| + k] == AmenityRecordOf(inside[k])
  {
    if |fs| > 0 {
      var init := fs[..|fs| - 1];
      assert AllTagged(init, b) by {
        forall k | 0 <= k < |init| && Inside(b, init[k].lat, init[k].lon)
          ensures GetTag(init[k].tags, "amenity").Some?
        {
          assert init[k] == fs[k];
        }
      }
      FilterFeaturesTagged(init, b, st);
    }
  }

  /** A feature inside the box without an amenity tag appends the record
      built last once more: after one iteration the last record is always
      free of falsy values, so the filter leaves it as it is. */
  lemma {:induction false} StaleRecordRepeated(st: FilterState, f: Feature, b: BBox)
    requires Inside(b, f.lat, f.lon) && GetTag(f.tags, "amenity").None?
    requires st.last.Some? && Falsyless(st.last.value)
    ensures FilterStep(st, f, b) == Ok(FilterState(st.out + [st.last.value], st.last))
  {
    DropFalsyKeepsFalsyless(st.last.value);
  }

  lemma {:induction false} DropFalsyKeepsFalsyless(r: AmenityRecord)
    requires Falsyless(r)
    ensures DropFalsy(r) == r
  {
    TruthyTagsKeepsTruthy(r.extra);
  }

  /** Every record the loop keeps as `amenity_record` is free of falsy values. */
  lemma {:induction false} LastRecordFalsyless(fs: seq<Feature>, b: BBox, st: FilterState)
    requires st.last.Some? ==> Falsyless(st.last.value)
    requires FilterFeatures(fs, b, st).Ok?
    ensures var last := FilterFeatures(fs, b, st).value.last; last.Some? ==> Falsyless(last.value)
  {
    if |fs| > 0 {
      LastRecordFalsyless(fs[..|fs| - 1], b, st);
    }
  }

  lemma FirstStep(f: Feature, b: BBox)
    requires Inside(b, f.lat, f.lon) && GetTag(f.tags, "amenity").Some?
    ensures FilterFeatures([f], b, FilterState([], None)) == Ok(FilterState([AmenityRecordOf(f)], Some(AmenityRecordOf(f))))
  {
    assert [f][..0] == [];
    assert [] + [AmenityRecordOf(f)] == [AmenityRecordOf(f)];
  }

  /** The same feature first in the data raises `UnboundLocalError`. */
  lemma UnboundRecordFails(f: Feature, b: BBox)
    requires Inside(b, f.lat, f.lon) && GetTag(f.tags, "amenity").None?
    ensures Amenities(Some(AmenityData([f], [], [])), b) == Err(RecordUnbound(f.id))
  {
    assert [f][..0] == [];
    assert FilterFeatures([f], b, FilterState([], None)) == Err(RecordUnbound(f.id));
  }

  /** Lines 347-353: the loop over `node.tags.items()`. */
  method CollectExtraTags(tags: seq<Tag>, name: Option<string>, amenity: string) returns (extra: seq<Tag>)
    ensures extra == ExtraTags(tags, name, amenity)
  {
    extra := [];
    var k := 0;
    while k < |tags|
      invariant 0 <= k <= |tags|
      invariant extra == ExtraTags(tags[..k], name, amenity)
    {
      var key, value := tags[k].key, tags[k].value;
      if Some(value) != name && value != amenity {
        if !IsBaseKey(key) && !HasKey(extra, key) {
          extra := extra + [Tag(key, value)];
        }
      }
      assert tags[..k + 1][..k] == tags[..k];
      k := k + 1;
    }
    assert tags[..k] == tags;
  }

  /** One of the loops of lines 333-409 over nodes, ways or relations. */
  method FilterLoop(fs: seq<Feature>, b: BBox, st: FilterState) returns (r: Result<FilterState, AmenityError>)
    ensures r == FilterFeatures(fs, b, st)
  {
    var amenity := st.out;
    var amenityRecord := st.last;
    var t := 0;
    while t < |fs|
      invariant 0 <= t <= |fs|
      invariant FilterFeatures(fs[..t], b, st) == Ok(FilterState(amenity, amenityRecord))
    {
      assert fs[..t + 1][..t] == fs[..t];
      var next := VisitFeature(fs[t], b, amenity, amenityRecord);
      if next.Err? {
        FilterErrorStays(fs, t + 1, b, st);
        assert fs[..|fs|] == fs;
        return next;
      }
      amenity, amenityRecord := next.value.out, next.value.last;
      t := t + 1;
    }
    assert fs[..t] == fs;
    return Ok(FilterState(amenity, amenityRecord));
  }

  /** The body of those loops for one feature. */
  method VisitFeature(f: Feature, b: BBox, amenity: seq<AmenityRecord>, last: Option<AmenityRecord>)
    returns (r: Result<FilterState, AmenityError>)
    ensures r == FilterStep(FilterState(amenity, last), f, b)
  {
    var amenityRecord := last;
    if f.lat >= b.latMin && f.lat <= b.latMax && f.lon >= b.lonMin && f.lon <= b.lonMax {
      var amenityTag := GetTag(f.tags, "amenity");
      if amenityTag.Some? {
        var name := GetTag(f.tags, "name");
        var extra := CollectExtraTags(f.tags, name, amenityTag.value);
        amenityRecord := Some(AmenityRecord(Some(f.id), Some(f.lat), Some(f.lon), name, amenityTag, extra));
      }
      if amenityRecord.None? {
        return Err(RecordUnbound(f.id));
      }
      amenityRecord := Some(DropFalsy(amenityRecord.value));
      return Ok(FilterState(amenity + [amenityRecord.value], amenityRecord));
    }
    return Ok(FilterState(amenity, last));
  }

  lemma {:induction false} FilterErrorStays(fs: seq<Feature>, t: nat, b: BBox, st: FilterState)
    requires t <= |fs| && FilterFeatures(fs[..t], b, st).Err?
    ensures FilterFeatures(fs, b, st) == FilterFeatures(fs[..t], b, st)
    decreases |fs| - t
  {
    if t < |fs| {
      assert fs[..t + 1][..t] == fs[..t];
      FilterErrorStays(fs, t + 1, b, st);
    } else {
      assert fs[..t] == fs;
    }
  }

  /** Lines 330-410 of `get_amenities`, on the data the failover returned. */
  method GetAmenities(data: Option<AmenityData>, b: BBox) returns (r: Result<seq<AmenityRecord>, AmenityError>)
    ensures r == Amenities(data, b)
  {
    if data.None? {
      return Ok([]);
    }
    var d := data.value;
    var s1 := FilterLoop(d.nodes, b, FilterState([], None));
    if s1.Err? {
      return Err(s1.error);
    }
    var s2 := FilterLoop(d.ways, b, s1.value);
    if s2.Err? {
      return Err(s2.error);
    }
    var s3 := FilterLoop(d.relations, b, s2.value);
    if s3.Err? {
      return Err(s3.error);
    }
    return Ok(s3.value.out);
  }
}
