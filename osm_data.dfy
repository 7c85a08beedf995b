/** The records that flow between the stages of the street/POI pipeline of
    preprocessors/openstreetmap/osm_service.py. Python dictionaries become
    datatypes; a dictionary key that may be absent becomes an `Option` field,
    and structural equality of two dicts becomes datatype equality. */
module OsmData {
  import opened Wrappers

  /** One entry of an OSM tag dictionary, in the dictionary's iteration order. */
  datatype Tag = Tag(key: string, value: string)

  /** `tags.get(key)`: the value of the first entry with that key. */
  function GetTag(tags: seq<Tag>, key: string): (r: Option<string>)
    ensures r.None? <==> forall k :: 0 <= k < |tags| ==> tags[k].key != key
    ensures r.Some? ==> Tag(key, r.value) in tags
  {
    if |tags| == 0 then None
    else if tags[0].key == key then Some(tags[0].value)
    else GetTag(tags[1..], key)
  }

  /** A street node. `cat` and `name` are added by the intersection annotator,
      `poisId` (key "POIs_ID") by the POI assigner; `poisIdMisspelt` is the
      separate key "POIs_iD" that one branch of the assigner writes. */
  datatype Node = Node(
    id: int,
    lat: real,
    lon: real,
    cat: Option<string>,
    name: Option<string>,
    poisId: Option<seq<int>>,
    poisIdMisspelt: Option<seq<int>>)

  /** A node as first built from the map data: only id, lat and lon. */
  predicate Plain(n: Node)
  {
    n.cat.None? && n.name.None? && n.poisId.None? && n.poisIdMisspelt.None?
  }

  /** A processed street (an OSM way tagged `highway`). `name` is the key
      "street_name", `highway` the key "street_type", `addrStreet` "addr:street". */
  datatype Street = Street(
    streetId: int,
    name: Option<string>,
    highway: Option<string>,
    addrStreet: Option<string>,
    surface: Option<string>,
    oneway: Option<bool>,
    sidewalk: Option<string>,
    maxspeed: Option<string>,
    lanes: Option<int>,
    nodes: seq<Node>)

  /** The label key of an intersection record: "street_name", "street_type" or neither. */
  datatype Label = NameLabel(name: string) | TypeLabel(kind: string) | NoLabel

  /** One record of `extract_street`: a street id, its title (the label key) and the shared nodes. */
  datatype IntersectionRecord = IntersectionRecord(streetId: int, title: Label, nodes: seq<Node>)

  /** An amenity record of `get_amenities`. The falsy-value filter may drop any
      of the base keys (an id of 0, a latitude of 0.0, an empty name), so every
      one of them is optional; `extra` holds the further tags in insertion order. */
  datatype AmenityRecord = AmenityRecord(
    id: Option<int>,
    lat: Option<real>,
    lon: Option<real>,
    name: Option<string>,
    cat: Option<string>,
    extra: seq<Tag>)

  /** An element of the POI list: an annotated street node or an amenity record. */
  datatype Poi = NodePoi(node: Node) | AmenityPoi(amenity: AmenityRecord)

  /** `POIs[i]["cat"]`, `["id"]`, `["lat"]`, `["lon"]`; `None` where the key is absent. */
  function PoiCat(p: Poi): Option<string>
  {
    match p
    case NodePoi(n) => n.cat
    case AmenityPoi(a) => a.cat
  }

  function PoiId(p: Poi): Option<int>
  {
    match p
    case NodePoi(n) => Some(n.id)
    case AmenityPoi(a) => a.id
  }

  function PoiLat(p: Poi): Option<real>
  {
    match p
    case NodePoi(n) => Some(n.lat)
    case AmenityPoi(a) => a.lat
  }

  function PoiLon(p: Poi): Option<real>
  {
    match p
    case NodePoi(n) => Some(n.lon)
    case AmenityPoi(a) => a.lon
  }

  /** The great-circle distance `haversine((lat1, lon1), (lat2, lon2))` in
      kilometres, supplied by the caller. */
  type Dist = (real, real, real, real) -> real

  /** What the model needs of a distance: never negative, zero from a point to itself. */
  ghost predicate IsDistance(dist: Dist)
  {
    (forall a, b, c, d :: dist(a, b, c, d) >= 0.0) &&
    (forall a, b :: dist(a, b, a, b) == 0.0)
  }
}

/** `create_bbox_coordinates` and the inclusive box test the stages share. */
module BoundingBox {

  /** `[lat_min, lon_min, lat_max, lon_max]` in degrees. */
  datatype BBox = BBox(latMin: real, lonMin: real, latMax: real, lonMax: real)

  /** The test every stage applies: both bounds inclusive. */
  predicate Inside(b: BBox, lat: real, lon: real)
  {
    b.latMin <= lat <= b.latMax && b.lonMin <= lon <= b.lonMax
  }

  const EarthRadiusKm: real := 6371.0
  /** `math.pi` as a decimal. */
  const Pi: real := 3.141592653589793

  function Radians(deg: real): real { deg * Pi / 180.0 }
  function Degrees(rad: real): real { rad * 180.0 / Pi }

  /** The box of half-width `distance` metres around (lat, lon) on a sphere of
      radius 6371 km. `cosLat` is `cos(radians(lat))`, which the caller computes. */
  function CreateBBox(distance: real, lat: real, lon: real, cosLat: real): (b: BBox)
    requires distance > 0.0
    requires -90.0 <= lat <= 90.0 && -180.0 <= lon <= 180.0
    requires 0.0 < cosLat <= 1.0
    ensures b.latMin < lat < b.latMax && b.lonMin < lon < b.lonMax
    ensures b.latMax - lat == lat - b.latMin && b.lonMax - lon == lon - b.lonMin
    ensures b.latMax - lat == distance * 0.001 / EarthRadiusKm * 180.0 / Pi
    ensures b.lonMax - lon == distance * 0.001 / (EarthRadiusKm * cosLat) * 180.0 / Pi
    ensures b.lonMax - b.lonMin >= b.latMax - b.latMin
  {
    var distanceKm := distance * 0.001;
    var latRad := Radians(lat);
    var lonRad := Radians(lon);
    var parallelRadius := EarthRadiusKm * cosLat;
    var dLat := distanceKm / EarthRadiusKm;
    var dLon := distanceKm / parallelRadius;
    assert dLon >= dLat by {
      assert dLon * parallelRadius == distanceKm;
      assert dLat * EarthRadiusKm == distanceKm;
      assert dLon * EarthRadiusKm >= dLon * parallelRadius;
    }
    BBox(Degrees(latRad - dLat), Degrees(lonRad - dLon), Degrees(latRad + dLat), Degrees(lonRad + dLon))
  }
}

/** The nested try/except of `get_streets` and `get_amenities`: three endpoints,
    tried in order, each once. */
module Failover {
  import opened Wrappers

  /** The outcome of one query against one endpoint: an exception or a result. */
  datatype Attempt<T> = Failed | Answered(data: T)

  /** The data returned (`None` when all servers are down) and how many
      endpoints were contacted. */
  datatype Fetched<T> = Fetched(data: Option<T>, tried: nat)

  /** `attempts` are the outcomes at the primary server, secondary server 1 and
      secondary server 2, in that order. */
  function Fetch<T>(attempts: seq<Attempt<T>>): (r: Fetched<T>)
    requires |attempts| == 3
    ensures 1 <= r.tried <= 3
    ensures forall k :: 0 <= k < r.tried - 1 ==> attempts[k].Failed?
    ensures r.data.Some? ==> attempts[r.tried - 1] == Answered(r.data.value)
    ensures r.data.None? <==> forall k :: 0 <= k < 3 ==> attempts[k].Failed?
  {
    match attempts[0]
    case Answered(d) => Fetched(Some(d), 1)
    case Failed =>
      match attempts[1]
      case Answered(d) => Fetched(Some(d), 2)
      case Failed =>
        match attempts[2]
        case Answered(d) => Fetched(Some(d), 3)
        case Failed => Fetched(None, 3)
  }
}
