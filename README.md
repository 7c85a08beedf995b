# OpenStreetMap street and point-of-interest pipeline

This project models the street preprocessing core of
`preprocessors/openstreetmap/osm_service.py`. The core takes a centre point
and a distance and turns the answers of two Overpass queries into a list of
streets. Each street carries its nodes; some nodes are marked as
intersections or carry the ids of nearby points of interest (POIs), and the
list is ranked by path length.

The stages follow the Python functions:

- `create_bbox_coordinates` builds the bounding box. It is `BoundingBox.CreateBBox`.
- `get_streets` and `get_amenities` try three servers in order. `Failover.Fetch`
  models that failover; each server's answer is an input.
- `process_streets_data` keeps the nodes inside the box, drops ways with no
  node left, converts `lanes` and `oneway`, and drops falsy fields. It is
  the `StreetExtractor` module.
- `compare_street` and `extract_street` build the pairwise intersection
  records, group them by street id and run the "unique set" pass. They are
  the `IntersectionDetector` module.
- `allot_intersection` marks shared nodes as intersections and names them.
  It is the `IntersectionAnnotator` module.
- The filter part of `get_amenities` builds amenity records from the nodes,
  ways and relations inside the box. It is the `AmenityExtractor` module.
- `enlist_POIs` collects the marked nodes and the amenities. It is the
  `PoiAggregator` module.
- `OSM_preprocessor` attaches each POI to the nearest node (amenities) or to
  the node with the same id (intersections) in a copy of the streets, then
  ranks the copy. It is the `PoiAssigner` module; `PoiAttachment` proves what
  one attachment does to the copy, and `StreetRanker` models
  `compute_street_length` and the descending stable sort.

Python dictionaries become datatypes, and an optional key becomes an
`Option` field. A Python exception the code can raise becomes the `Err`
side of a `Result`: `int()` on a bad `lanes` tag, a missing key in
`OSM_preprocessor`, and the unbound local variables of `get_amenities` and
`compute_street_length`. `deepcopy` becomes value semantics, because every
stage returns a new sequence. The loops of the source are methods with loop
invariants. Each method is proved equal to a recursive specification
function, and the properties are lemmas about those functions.

Where the code does less than its comments and names say, the model follows
the code:

- The "unique set" pass of lines 243-250 (the comment at line 242 says it
  keeps a unique set of intersections) compares against a list that is
  still empty, so merged intersection node lists keep their duplicates
  (`IntersectionDetector.KeepUnseenOfNothing`).
- The record for the second street of a pair (lines 195-199) tests the
  first street's type and copies the first street's id and type
  (`IntersectionDetector.RecordJAgreesWithOwnRecord`).
- An amenity is attached to every node copy carrying the nearest node's id.
  The duplicate guard on POI ids is the global `POI_id_list`, not a
  per-node list.
- The intersection branch writes a merged id list under the key `POIs_iD`
  (line 536), not `POIs_ID` (`PoiAttachment.FullScanExtended`).
- `bool(oneway)` is true for every non-empty tag value
  (`StreetExtractor.WayObject`).

## Model

| member | source | states |
|---|---|---|
| BoundingBox.CreateBBox | preprocessors/openstreetmap/osm_service.py:12-32 | the box contains the centre strictly and is symmetric about it; its half-height is distance·0.001/6371 radians and its half-width distance·0.001/(6371·cos(lat)) radians, both in degrees; it is at least as wide as it is high |
| Failover.Fetch | preprocessors/openstreetmap/osm_service.py:73-91 | servers are tried in order; every server before the one that answered failed; the data is that server's answer; no data exactly when all three servers failed |
| OsmData.GetTag | preprocessors/openstreetmap/osm_service.py:126-142 | `tags.get(key)` is absent exactly when no tag has the key, and a found value belongs to a tag with that key |
| Numerals.ParseInt | preprocessors/openstreetmap/osm_service.py:126-128 | `int()` accepts exactly a non-empty digit string with an optional `+` or `-` sign; the value is the decimal value of the digits, negated after `-` |
| Numerals.NatToDecimalValue | preprocessors/openstreetmap/osm_service.py:287 | the decimal digits printed for a natural number have that number as their value |
| Numerals.IntToDecimalRoundTrip | preprocessors/openstreetmap/osm_service.py:287 | parsing the printed street id gives back the id (`int(str(n)) == n`) |
| StreetExtractor.NodeObject | preprocessors/openstreetmap/osm_service.py:114-118 | the node object has the raw node's id and coordinates and no other key |
| StreetExtractor.KeptNodes | preprocessors/openstreetmap/osm_service.py:109-120 | every kept node lies inside the box and has no annotation; the list has no duplicates and is no longer than the way |
| StreetExtractor.KeptNodesMembers | preprocessors/openstreetmap/osm_service.py:109-120 | a node is kept exactly when some node of the way converts to it and it lies inside the box |
| StreetExtractor.KeptNodesFirstOccurrence | preprocessors/openstreetmap/osm_service.py:119-120 | kept nodes appear in the order of their first occurrence in the way |
| StreetExtractor.KeepNodes | preprocessors/openstreetmap/osm_service.py:109-120 | the node loop computes the kept node list |
| StreetExtractor.StringField | preprocessors/openstreetmap/osm_service.py:148 | a string field survives the falsy filter exactly when present and non-empty, and then unchanged |
| StreetExtractor.OnewayField | preprocessors/openstreetmap/osm_service.py:130-132 | `oneway` is kept exactly when the tag is present and non-empty, and it is then always true |
| StreetExtractor.LanesField | preprocessors/openstreetmap/osm_service.py:126-128 | `lanes` raises exactly when the tag is present and not an integer; a kept value is non-zero and is the parsed tag, and a tag that parses to a non-zero integer is kept as that integer |
| StreetExtractor.WayObject | preprocessors/openstreetmap/osm_service.py:124-149 | fails exactly when `lanes` fails; the record has no falsy field and carries the way id and the kept nodes; name, type, `addr:street`, surface, sidewalk and maxspeed each hold their tag's value exactly when that tag is present and non-empty; `lanes` is the converted tag; `oneway` is present exactly when its tag is non-empty |
| StreetExtractor.ProcessWaysClean | preprocessors/openstreetmap/osm_service.py:108-149 | every street has no falsy field and no duplicate node, and all its nodes are unannotated and inside the box |
| StreetExtractor.ProcessWaysRecords | preprocessors/openstreetmap/osm_service.py:108-149 | the streets are exactly the records of the ways that keep a node, in way order |
| StreetExtractor.ProcessWaysFails | preprocessors/openstreetmap/osm_service.py:124-128 | processing fails exactly when some way keeps a node and has a non-integer `lanes` tag |
| StreetExtractor.ProcessWaysErrorStays | preprocessors/openstreetmap/osm_service.py:128 | once a way fails, the ways after it do not change the outcome |
| StreetExtractor.ProcessStreetsData | preprocessors/openstreetmap/osm_service.py:100-154 | the loops compute the specified streets; no data (the `AttributeError` path) gives no result |
| IntersectionDetector.CompareStreet | preprocessors/openstreetmap/osm_service.py:157-159 | a node is common exactly when it is in both streets; without duplicates in the first street there are none in the result |
| IntersectionDetector.CompareStreetInOrder | preprocessors/openstreetmap/osm_service.py:157-159 | the common nodes keep the order of the first street |
| IntersectionDetector.RecordJAgreesWithOwnRecord | preprocessors/openstreetmap/osm_service.py:189-205 | the second street's record is the one it would build for itself exactly when it has a name or neither street has a type; it carries its own id exactly when it has a name or the first street has no type |
| IntersectionDetector.RecordJ | preprocessors/openstreetmap/osm_service.py:189-205 | the second street's record holds the common nodes; a named second street gets the record it would build for itself; otherwise the record takes the first street's id and type when the first street has a type, and else the second street's id with no label |
| IntersectionDetector.IndexOf | preprocessors/openstreetmap/osm_service.py:211 | the first record with the id, or the end when there is none |
| IntersectionDetector.Group | preprocessors/openstreetmap/osm_service.py:208-241 | the grouped records have pairwise distinct ids and are no more than the records |
| IntersectionDetector.InsertFacts | preprocessors/openstreetmap/osm_service.py:209-240 | a new id appends a record; a known id extends that record's nodes and leaves the others alone |
| IntersectionDetector.InsertIds | preprocessors/openstreetmap/osm_service.py:209-240 | after one record the ids present are the old ones plus its id |
| IntersectionDetector.GroupHasId | preprocessors/openstreetmap/osm_service.py:208-241 | an id has a group exactly when some record has it |
| IntersectionDetector.NodesForAbsent | preprocessors/openstreetmap/osm_service.py:208-241 | an id with no record has no nodes |
| IntersectionDetector.GroupNodes | preprocessors/openstreetmap/osm_service.py:232-239 | a group's nodes are the concatenation, in record order, of the nodes of all records with its id |
| IntersectionDetector.GroupTitle | preprocessors/openstreetmap/osm_service.py:211-230 | a group keeps the label of the first record with its id |
| IntersectionDetector.KeepUnseen | preprocessors/openstreetmap/osm_service.py:246 | a node is kept exactly when it is in the list and not among the seen nodes |
| IntersectionDetector.KeepUnseenOfNothing | preprocessors/openstreetmap/osm_service.py:244-246 | filtering against the empty `unique_set` keeps the list as it is, duplicates included |
| IntersectionDetector.ExtractedRecords | preprocessors/openstreetmap/osm_service.py:162-251 | one record per street id, holding the nodes of all pair records for that id |
| IntersectionDetector.NodesForMember | preprocessors/openstreetmap/osm_service.py:232-239 | a node of any record with an id is among that id's nodes |
| IntersectionDetector.RowRecordsContain | preprocessors/openstreetmap/osm_service.py:165-206 | the records of a pair are among the records of its row |
| IntersectionDetector.AllRecordsContain | preprocessors/openstreetmap/osm_service.py:164-206 | the records of a row are among all pair records |
| IntersectionDetector.RecordedNodeSurvives | preprocessors/openstreetmap/osm_service.py:208-251 | a node of a pair record is in the extracted record of that record's id |
| IntersectionDetector.SharedNodeRecorded | preprocessors/openstreetmap/osm_service.py:162-251 | a node shared by two streets is in the first street's extracted record, and in the second's unless that street has no name and the first has a type |
| IntersectionDetector.ExtractStreet | preprocessors/openstreetmap/osm_service.py:162-251 | the three loops compute the extracted records |
| IntersectionDetector.CollectPairRecords | preprocessors/openstreetmap/osm_service.py:163-206 | the pair loop computes all pair records, in loop order |
| IntersectionDetector.CollectRow | preprocessors/openstreetmap/osm_service.py:165-206 | the inner loop appends the row's pair records |
| IntersectionDetector.RepresentsNewId | preprocessors/openstreetmap/osm_service.py:211-230 | adding a new id to the dict matches appending a group |
| IntersectionDetector.RepresentsKnownId | preprocessors/openstreetmap/osm_service.py:231-240 | merging into a known id matches extending its group |
| IntersectionDetector.GroupById | preprocessors/openstreetmap/osm_service.py:208-241 | the dict loop and `list(output.values())` compute the groups in first-insertion order |
| IntersectionDetector.RepresentsValues | preprocessors/openstreetmap/osm_service.py:241 | the dict's values in key-insertion order are the groups |
| IntersectionDetector.KeepUniqueNodes | preprocessors/openstreetmap/osm_service.py:243-250 | the unique-set loop computes the filtered records |
| IntersectionAnnotator.IntersectionName | preprocessors/openstreetmap/osm_service.py:277-301 | each side is described by name, then type; the name falls back to both ids only when neither side has a name and exactly one has a type |
| IntersectionAnnotator.VisitRecords | preprocessors/openstreetmap/osm_service.py:262-301 | visiting the records changes a node's category and name only |
| IntersectionAnnotator.VisitNodesOnlyMarks | preprocessors/openstreetmap/osm_service.py:265-301 | the loop over a record's nodes changes a node's category and name only |
| IntersectionAnnotator.AnnotateStreet | preprocessors/openstreetmap/osm_service.py:258-301 | the street's fields and node count stay; each node changes only in category and name |
| IntersectionAnnotator.FirstMatch | preprocessors/openstreetmap/osm_service.py:262-268 | the first record of another street that contains the node |
| IntersectionAnnotator.VisitNodesMarked | preprocessors/openstreetmap/osm_service.py:266-268 | a node already marked no longer equals any unmarked record node and stays as it is |
| IntersectionAnnotator.VisitNodesUnmarked | preprocessors/openstreetmap/osm_service.py:265-301 | an unmarked node is marked and named exactly when it is in a record of another street |
| IntersectionAnnotator.AnnotateNode | preprocessors/openstreetmap/osm_service.py:261-301 | a node takes the name from the first matching record of another street and keeps it |
| IntersectionAnnotator.MarkedIffShared | preprocessors/openstreetmap/osm_service.py:266-269 | a node is marked exactly when some record of another street contains it |
| IntersectionAnnotator.AllotIntersection | preprocessors/openstreetmap/osm_service.py:254-302 | the four nested loops compute the annotated copy |
| IntersectionAnnotator.ExtractedUnmarked | preprocessors/openstreetmap/osm_service.py:162-251 | the records `extract_street` builds from streets whose nodes carry only id, lat and lon hold no node marked as an intersection, the premise of the marking lemmas above |
| IntersectionAnnotator.AllRecordsUnmarked | preprocessors/openstreetmap/osm_service.py:163-206 | no pair record holds a marked node when no street does |
| IntersectionAnnotator.GroupUnmarked | preprocessors/openstreetmap/osm_service.py:208-241 | grouping by id only concatenates node lists, so it adds no marked node |
| AmenityExtractor.ExtraTags | preprocessors/openstreetmap/osm_service.py:347-352 | every extra tag is a tag of the feature, differs from the name and amenity values, and is not a base key; keys are pairwise distinct |
| AmenityExtractor.ExtraTagsFirstKeyWins | preprocessors/openstreetmap/osm_service.py:351-352 | for each qualifying key, the tag kept is its first qualifying occurrence |
| AmenityExtractor.ExtraTagsAppends | preprocessors/openstreetmap/osm_service.py:347-352 | a qualifying tag whose key has not yet qualified is appended |
| AmenityExtractor.DropFalsy | preprocessors/openstreetmap/osm_service.py:355-356 | the filtered record has no falsy value; each field is kept unchanged when truthy and dropped otherwise; the extra tags are the truthy ones |
| AmenityExtractor.TruthyTags | preprocessors/openstreetmap/osm_service.py:355-356 | the kept tags are tags of the record with a non-empty key and value |
| AmenityExtractor.TruthyTagsInOrder | preprocessors/openstreetmap/osm_service.py:355-356 | the kept tags are a subsequence of the record's tags |
| AmenityExtractor.TruthyTagsComplete | preprocessors/openstreetmap/osm_service.py:355-356 | every tag with a non-empty key and value is kept |
| AmenityExtractor.TruthyTagsKeepsTruthy | preprocessors/openstreetmap/osm_service.py:355-356 | the filter keeps a list whose tags are all truthy unchanged |
| AmenityExtractor.TruthyTagsDistinctKeys | preprocessors/openstreetmap/osm_service.py:355-356 | the filter keeps distinct keys distinct |
| AmenityExtractor.AmenityRecordOf | preprocessors/openstreetmap/osm_service.py:337-356 | id, lat and lon survive exactly when non-zero; the category is the amenity tag and the name is the name tag, each kept exactly when present and non-empty; the extra tags are the truthy tags of `ExtraTags` for the feature's name and amenity; no falsy value |
| AmenityExtractor.FilterStep | preprocessors/openstreetmap/osm_service.py:335-357 | a feature outside the box changes nothing; the step raises exactly when the feature is inside, has no amenity tag and no record was built yet; otherwise one record is appended, has no falsy value and becomes the last record, and for a tagged feature it is the feature's own record |
| AmenityExtractor.FilterFeaturesTagged | preprocessors/openstreetmap/osm_service.py:333-357 | when every feature inside the box is tagged, one record per such feature is appended, in order |
| AmenityExtractor.StaleRecordRepeated | preprocessors/openstreetmap/osm_service.py:335-357 | an untagged feature inside the box appends the previous record again |
| AmenityExtractor.DropFalsyKeepsFalsyless | preprocessors/openstreetmap/osm_service.py:355-356 | a record without falsy values passes the filter unchanged, so filtering twice changes nothing |
| AmenityExtractor.LastRecordFalsyless | preprocessors/openstreetmap/osm_service.py:355-357 | the last record built has no falsy value |
| AmenityExtractor.FirstStep | preprocessors/openstreetmap/osm_service.py:335-357 | the first tagged feature inside the box gives its record |
| AmenityExtractor.UnboundRecordFails | preprocessors/openstreetmap/osm_service.py:355-357 | an untagged first feature inside the box raises on the unbound record |
| AmenityExtractor.FilterErrorStays | preprocessors/openstreetmap/osm_service.py:355-357 | once raised, the error is the result of the whole call |
| AmenityExtractor.CollectExtraTags | preprocessors/openstreetmap/osm_service.py:347-352 | the tag loop computes the extra tags |
| AmenityExtractor.FilterLoop | preprocessors/openstreetmap/osm_service.py:333-357 | the feature loop computes the specified records or error |
| AmenityExtractor.VisitFeature | preprocessors/openstreetmap/osm_service.py:335-357 | one feature's turn of the loop computes that step |
| AmenityExtractor.GetAmenities | preprocessors/openstreetmap/osm_service.py:329-410 | nodes, then ways, then relations; no data gives the empty list |
| PoiAggregator.AllNodesMembers | preprocessors/openstreetmap/osm_service.py:418-420 | the nodes visited are exactly the nodes of the streets |
| PoiAggregator.Ids | preprocessors/openstreetmap/osm_service.py:427-428 | `nodes_ids` lists the ids of the kept nodes, in order |
| PoiAggregator.PoiNodes | preprocessors/openstreetmap/osm_service.py:418-429 | every kept node is a visited node with a non-empty category; the kept ids are pairwise distinct |
| PoiAggregator.StructuralTestRedundant | preprocessors/openstreetmap/osm_service.py:426-427 | the `not in POIs` test never decides: filtering by id alone gives the same list |
| PoiAggregator.PoiNodesComplete | preprocessors/openstreetmap/osm_service.py:423-429 | the id of every node with a non-empty category is among the kept ids |
| PoiAggregator.PoiNodesFirst | preprocessors/openstreetmap/osm_service.py:426-429 | each kept node is the first marked node with its id |
| PoiAggregator.NodePois | preprocessors/openstreetmap/osm_service.py:429 | each kept node becomes one POI, in order |
| PoiAggregator.AmenityPois | preprocessors/openstreetmap/osm_service.py:430-432 | no amenity list adds nothing; otherwise each amenity becomes one POI, in order |
| PoiAggregator.PoisLayout | preprocessors/openstreetmap/osm_service.py:413-433 | marked street nodes with distinct ids come first, then every amenity in order, without dedup |
| PoiAggregator.PoiNodesStep | preprocessors/openstreetmap/osm_service.py:423-429 | one node is appended exactly when it is marked, not yet listed and its id is new |
| PoiAggregator.EnlistStreet | preprocessors/openstreetmap/osm_service.py:419-429 | the node loop of one street extends the kept nodes, ids and POIs |
| PoiAggregator.EnlistNode | preprocessors/openstreetmap/osm_service.py:423-429 | a node with a non-empty category whose POI and id are both new is appended to both lists; any other node changes neither |
| PoiAggregator.EnlistNodes | preprocessors/openstreetmap/osm_service.py:417-429 | the street loop computes the node POIs |
| PoiAggregator.AppendAmenities | preprocessors/openstreetmap/osm_service.py:430-432 | the amenity loop appends every amenity |
| PoiAggregator.EnlistPois | preprocessors/openstreetmap/osm_service.py:413-433 | `enlist_POIs` computes the specified POI list |
| PoiAssigner.NodeAt | preprocessors/openstreetmap/osm_service.py:474-475 | a node exists exactly at a valid position |
| PoiAssigner.SetNode | preprocessors/openstreetmap/osm_service.py:481-505 | writing a node changes that position only, and no street field or length |
| PoiAssigner.Positions | preprocessors/openstreetmap/osm_service.py:473-475 | the scan order visits valid positions |
| PoiAssigner.PositionsDistinct | preprocessors/openstreetmap/osm_service.py:473-475 | the scan visits each position once |
| PoiAssigner.PositionsNodes | preprocessors/openstreetmap/osm_service.py:473-475 | the nodes at the scan positions are the nodes of the streets, in order |
| PoiAssigner.SetNodeSameShape | preprocessors/openstreetmap/osm_service.py:481-505 | writing POI ids keeps the copy's shape |
| PoiAssigner.VisitNode | preprocessors/openstreetmap/osm_service.py:477-536 | a node without the scanned id changes nothing; `id_list` gains at most the scanned id, recorded at this position, and `POI_id_list` gains at most the POI id |
| PoiAssigner.VisitConsistent | preprocessors/openstreetmap/osm_service.py:477-505 | one visit keeps the copy equal to the input streets except for POI ids, and keeps the bookkeeping lists in step with it |
| PoiAssigner.ScanConsistent | preprocessors/openstreetmap/osm_service.py:473-505 | a whole scan keeps that invariant |
| PoiAssigner.VisitFresh | preprocessors/openstreetmap/osm_service.py:477-486 | one visit for a node id not yet assigned keeps this invariant: every visited copy with the id holds `[id]`, the id is recorded once, and nothing changes until such a copy is met |
| PoiAssigner.ScanFreshNode | preprocessors/openstreetmap/osm_service.py:473-486 | after any prefix of the scan for an id not yet assigned, every visited copy with the id holds `[id]`; the first such copy is recorded and the POI id is listed once |
| PoiAssigner.Nearest | preprocessors/openstreetmap/osm_service.py:447-469 | the chosen node is at minimum distance, and every earlier node is strictly farther |
| PoiAssigner.NearestOnNode | preprocessors/openstreetmap/osm_service.py:447-469 | a POI on a node's exact coordinates is at distance 0 from the chosen node |
| PoiAssigner.AssignPoisConsistent | preprocessors/openstreetmap/osm_service.py:437-538 | after any number of POIs the copy differs from the input streets only in POI ids |
| PoiAssigner.AssignPoisErrStays | preprocessors/openstreetmap/osm_service.py:443-453 | once a missing key raises, later POIs do not change the outcome |
| PoiAssigner.PoiStepOutcome | preprocessors/openstreetmap/osm_service.py:443-538 | `cat` is always read; with no node nothing else is; the amenity branch then needs `lat` and `lon`, and both branches need `id`; the first missing key is the `KeyError` raised, and the step succeeds exactly when none is missing |
| PoiAssigner.VisitSound | preprocessors/openstreetmap/osm_service.py:477-536 | one visit keeps every POI id list of the copy free of repetitions and drawn from `POI_id_list`, because a merged list only appends an id `POI_id_list` does not hold |
| PoiAssigner.ScanSound | preprocessors/openstreetmap/osm_service.py:473-536 | a whole scan keeps that invariant |
| PoiAssigner.AssignPoisSound | preprocessors/openstreetmap/osm_service.py:437-538 | starting from streets without POI id lists, the invariant holds after any number of POIs |
| PoiAssigner.SoundNoDup | preprocessors/openstreetmap/osm_service.py:437-538 | under the invariant no node's list, under either key, holds an id twice |
| PoiAssigner.PreprocessNoDup | preprocessors/openstreetmap/osm_service.py:436-551 | in the streets `OSM_preprocessor` returns, no node's `POIs_ID` or `POIs_iD` list holds an id twice, when the input nodes carry no such lists |
| PoiAssigner.FindNearest | preprocessors/openstreetmap/osm_service.py:447-469 | the nearest-node loops give the id and distance of the first nearest node, and nothing when there is no node |
| PoiAssigner.FoundStep | preprocessors/openstreetmap/osm_service.py:459-469 | one node visit keeps the running minimum, replacing it only when strictly closer |
| PoiAssigner.NearestInStreet | preprocessors/openstreetmap/osm_service.py:450-469 | the inner loop extends the running minimum over one street |
| PoiAssigner.VisitCopy | preprocessors/openstreetmap/osm_service.py:477-505 | one node visit of the copy updates it as specified |
| PoiAssigner.ScanCopy | preprocessors/openstreetmap/osm_service.py:473-505 | the scan loops compute the specified scan |
| PoiAssigner.ScanRow | preprocessors/openstreetmap/osm_service.py:474-505 | the inner scan loop covers one street |
| PoiAssigner.AssignOne | preprocessors/openstreetmap/osm_service.py:443-538 | one POI is handled as specified, missing keys included |
| PoiAssigner.AssignLoop | preprocessors/openstreetmap/osm_service.py:439-538 | the POI loop computes the specified state |
| PoiAssigner.AssignNext | preprocessors/openstreetmap/osm_service.py:441-538 | one turn of the POI loop |
| PoiAssigner.StripLengths | preprocessors/openstreetmap/osm_service.py:548-550 | removing `distance` gives back the streets, in order |
| PoiAssigner.OsmPreprocessor | preprocessors/openstreetmap/osm_service.py:436-551 | `OSM_preprocessor` computes the specified result |
| PoiAttachment.PositionsOrdered | preprocessors/openstreetmap/osm_service.py:473-475 | the scan visits positions in street-then-node order and visits all of them |
| PoiAttachment.ScanEarliest | preprocessors/openstreetmap/osm_service.py:473-486 | during a scan every assigned id stays at its earliest copy in scan order, no assignment is lost, and the scanned id is assigned once a copy with it was visited |
| PoiAttachment.ScanEarliestStep | preprocessors/openstreetmap/osm_service.py:473-486 | one more visit keeps that invariant |
| PoiAttachment.AssignPoisEarliest | preprocessors/openstreetmap/osm_service.py:478-484 | the node recorded for each assigned id is the earliest copy with that id |
| PoiAttachment.VisitExtended | preprocessors/openstreetmap/osm_service.py:487-505 | one visit for an already assigned id keeps this invariant: nothing changes before the earliest copy; from there every copy holds the earliest copy's list, extended by the POI id when that id is new |
| PoiAttachment.ScanExtended | preprocessors/openstreetmap/osm_service.py:487-505 | after any prefix of the scan for an already assigned id, the visited copies hold the earliest copy's list, extended by the POI id when it is new, and that id is listed at most once |
| PoiAttachment.FullScanFresh | preprocessors/openstreetmap/osm_service.py:473-486 | a scan for an unassigned id gives every copy the list `[id]` and records the id once; with no such node nothing changes |
| PoiAttachment.FullScanExtended | preprocessors/openstreetmap/osm_service.py:487-538 | a full scan for an already assigned id gives every copy the earliest copy's `POIs_ID` list; the amenity branch extends it by a new POI id, while the intersection branch writes the extended list under `POIs_iD` of the earliest copy only |
| PoiAttachment.AmenityPoiAttached | preprocessors/openstreetmap/osm_service.py:446-505 | an amenity's id is attached to every copy of the nearest node: as a new list `[id]` when that node has none, otherwise appended to the earliest copy's list when the id is new |
| PoiAttachment.IntersectionPoiAttached | preprocessors/openstreetmap/osm_service.py:506-538 | an intersection's id is attached as `[id]` to every node copy with that id when the id is new; an assigned id keeps the earliest copy's list, and the merged list goes to `POIs_iD`; with no such node nothing changes |
| StreetRanker.PathLength | preprocessors/openstreetmap/osm_service.py:559-574 | a street with at most one node has length 0; with two nodes it is the distance between them in metres |
| StreetRanker.PathLengthSplit | preprocessors/openstreetmap/osm_service.py:559-574 | cutting a path at one of its nodes splits its length into the lengths of the two pieces |
| StreetRanker.PathLengthNonNegative | preprocessors/openstreetmap/osm_service.py:556-575 | a path length is never negative |
| StreetRanker.PathLengthOfOnePoint | preprocessors/openstreetmap/osm_service.py:556-575 | a street whose nodes share one point has length 0 |
| StreetRanker.LastSum | preprocessors/openstreetmap/osm_service.py:559-575 | `sum` is unbound exactly when no street so far has a node |
| StreetRanker.StreetLengths | preprocessors/openstreetmap/osm_service.py:554-576 | each street keeps its place and contents and gains a `distance` |
| StreetRanker.StreetLengthsOutcome | preprocessors/openstreetmap/osm_service.py:554-576 | the loop raises exactly when the first street has no node; a street with nodes gets its own path length |
| StreetRanker.EmptyStreetInheritsSum | preprocessors/openstreetmap/osm_service.py:559-575 | a later street without nodes gets the previous street's `distance` |
| StreetRanker.PrevSumIsLast | preprocessors/openstreetmap/osm_service.py:575 | the last `distance` is the final value of `sum` |
| StreetRanker.ComputeStreetLength | preprocessors/openstreetmap/osm_service.py:554-576 | the loops compute the specified lengths or error |
| StreetRanker.SumPath | preprocessors/openstreetmap/osm_service.py:560-574 | the inner loop sums the path length |
| StreetRanker.StreetLengthsErrStays | preprocessors/openstreetmap/osm_service.py:575 | once raised, the error is the result of the whole call |
| StreetRanker.InsertDesc | preprocessors/openstreetmap/osm_service.py:541-546 | insertion adds exactly the element |
| StreetRanker.InsertDescBounded | preprocessors/openstreetmap/osm_service.py:541-546 | insertion keeps every distance below a common bound |
| StreetRanker.InsertDescDescending | preprocessors/openstreetmap/osm_service.py:541-546 | insertion keeps a descending list descending |
| StreetRanker.SortDesc | preprocessors/openstreetmap/osm_service.py:541-546 | the sorted list is descending by `distance` and a permutation of the input |
| StreetRanker.InsertDescWithDistance | preprocessors/openstreetmap/osm_service.py:541-546 | insertion places the element after the equal distances already there |
| StreetRanker.SortDescStable | preprocessors/openstreetmap/osm_service.py:541-546 | the sort is stable: streets of equal `distance` keep their order |
| StreetRanker.Unranked | preprocessors/openstreetmap/osm_service.py:548-550 | dropping `distance` keeps the streets in order |
| StreetRanker.UnrankedMultiset | preprocessors/openstreetmap/osm_service.py:548-550 | permuted ranked lists give permuted street lists |
| StreetRanker.RankedIsPermutation | preprocessors/openstreetmap/osm_service.py:540-550 | the returned streets are a permutation of the annotated copy |

## Left out

- The Overpass queries (`server_config1`, `server_config2`) and the network are not modelled. Each server's answer, or its failure, is an input of `Failover.Fetch`, and the fetched data is an input of the later stages.
- The fetch part of `get_amenities` (lines 312-327) is the same three-server failover as `Failover.Fetch`; it is not modelled a second time.
- The haversine distance is a function parameter (`OsmData.Dist`). Lemmas that need it assume only that it is non-negative and zero on equal points (`OsmData.IsDistance`).
- `BoundingBox.CreateBBox`: `cos` has no Dafny definition, so the caller passes `cos(radians(lat))` as a parameter. Pi is a fixed decimal.
- `BoundingBox.CreateBBox` requires `0 < cos(lat) <= 1` of that parameter; this is not a limit on latitude. At a pole the source gets `cos(radians(90))` of about 6e-17 in floating point, so it raises nothing and returns a very wide longitude span. Given that value as its parameter, the model returns the same wide span, computed exactly; only an exact zero is outside the requires.
- Floating-point rounding is not modelled anywhere, since reals are exact. This affects the box, the path sums of `compute_street_length` (lines 566-570), and the distance comparisons of the nearest-node search and of the sort. Results may differ from the source in the last bits, and a tie that rounding would create or break is decided exactly.
- `Numerals.ParseInt` accepts an optional sign and ASCII digits only. Python's `int()` also accepts surrounding whitespace, underscores and non-ASCII digits.
- The falsy-field filter of line 148 would also drop a `street_id` of 0. The model always keeps the street id.
- `logging`, `get_timestamp`, `validate`, `get_coordinates` and the request handlers are not modelled.
- `way.center_lat` being `None` for a way or relation without a centre (a `TypeError` in the comparison) is not modelled; every feature has coordinates.
- `id_list` and `node_list` are modelled together as a map from node id to the position of the first node copy assigned that id. A `node_list` entry aliases that node of the copy, and the model reads its `POIs_ID` from the copy at that position.
- Python's `float` and `int` conversions of coordinates and ids are the identity.
- `PoiAssigner.PoiStep` reads the POI's `id` once per POI, after finding the nearest node in the amenity branch. The source reads it at the first node whose id matches (amenity branch) or at the first node compared (intersection branch). Such a node exists whenever there is a node, so the outcome is the same.
