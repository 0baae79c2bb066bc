/** `format_data`: turns each decoded feed entity into a storage document
    by adding a content hash, an optional `location` and `@timestamp`.
    app/app.py and main.py differ only in how they treat a vehicle without
    a `position`: the first raises KeyError, the second skips the field. */
module Transform {
  import opened Wrappers
  import opened PyData
  import Canonical
  import Timestamp

  /** SHA-256 hex digest of the `json.dumps(..., sort_keys=True)` text of a
      value, given the key-sorted value itself. The byte layout of the JSON
      text and the digest are left abstract. */
  type Fingerprint = Value -> string

  /** The two entry points: app/app.py and main.py. */
  datatype Variant = AppVariant | MainVariant

  /** The content hash: the fingerprint of the key-sorted entity. */
  function ContentHash(entity: Value, fingerprint: Fingerprint): string {
    fingerprint(Canonical.Canon(entity))
  }

  /** The `location` object built from the two coordinates, lon first. */
  function LocationObject(lon: Value, lat: Value): Value {
    JObj([Field("lon", lon), Field("lat", lat)])
  }

  function Vehicle(entity: Value): Option<Value> {
    At(entity, "vehicle")
  }

  function Longitude(entity: Value): Option<Value> {
    Then(Then(Vehicle(entity), "position"), "longitude")
  }

  function Latitude(entity: Value): Option<Value> {
    Then(Then(Vehicle(entity), "position"), "latitude")
  }

  /** Both coordinates of the vehicle's position are present and truthy. */
  predicate HasCoordinates(entity: Value) {
    Longitude(entity).Some? && Latitude(entity).Some?
      && Truthy(Longitude(entity).value) && Truthy(Latitude(entity).value)
  }

  /** The location a document should carry, when HasCoordinates holds. */
  function ExpectedLocation(entity: Value): Value
    requires HasCoordinates(entity)
  {
    LocationObject(Longitude(entity).value, Latitude(entity).value)
  }

  /** The `if pos["longitude"] and pos["latitude"]` test: `and`
      short-circuits, so latitude is only read when longitude is truthy. A
      location is built exactly when both coordinates are truthy. */
  function LocationFrom(position: Value): (r: Result<Option<Value>, Exception>)
    ensures r.Success? <==>
      At(position, "longitude").Some? && (Truthy(At(position, "longitude").value) ==> At(position, "latitude").Some?)
    ensures r.Success? ==>
      r.value == if Truthy(At(position, "longitude").value) && Truthy(At(position, "latitude").value)
                 then Some(LocationObject(At(position, "longitude").value, At(position, "latitude").value))
                 else None
    ensures r.Failure? ==>
      r.error == (if !position.JObj? then TypeError
                  else if At(position, "longitude").None? then KeyError("longitude")
                  else KeyError("latitude"))
  {
    var lon :- Subscript(position, "longitude");
    if !Truthy(lon) then Success(None)
    else
      var lat :- Subscript(position, "latitude");
      if Truthy(lat) then Success(Some(LocationObject(lon, lat))) else Success(None)
  }

  /** The location step of each variant, on the record being built: it
      raises exactly when a lookup it performs fails, and otherwise yields
      the lon/lat pair when both coordinates are present and truthy. */
  function Location(variant: Variant, record: Value): (r: Result<Option<Value>, Exception>)
    ensures r.Success? <==> LocationReadable(variant, record)
    ensures r.Success? ==> r.value == if HasCoordinates(record) then Some(ExpectedLocation(record)) else None
  {
    var vehicle :- Subscript(record, "vehicle");
    match variant
    case AppVariant =>
      var position :- Subscript(vehicle, "position");
      LocationFrom(position)
    case MainVariant =>
      var hasPosition :- Contains(vehicle, "position");
      if !hasPosition then Success(None)
      else
        var position :- Subscript(vehicle, "position");
        LocationFrom(position)
  }

  /** The app variant reads `position` unconditionally; the main variant
      first asks `"position" in vehicle`, which for a string is a substring
      test, for a list a membership test, and raises for anything else but
      a dictionary. What is then read must be a dictionary holding a
      longitude, and a latitude too when the longitude is truthy. */
  ghost predicate LocationReadable(variant: Variant, entity: Value) {
    var coordinatesReadable :=
      Longitude(entity).Some? && (Truthy(Longitude(entity).value) ==> Latitude(entity).Some?);
    && Vehicle(entity).Some?
    && match variant
       case AppVariant => coordinatesReadable
       case MainVariant =>
         match Vehicle(entity).value
         case JObj(fs) => "position" in Keys(fs) ==> coordinatesReadable
         case JStr(s) => !IsSubstring("position", s)
         case JArr(items) => JStr("position") !in items
         case _ => false
  }

  /** `format_unix_timestamp(record["vehicle"]["timestamp"])`: it raises
      exactly when the timestamp is missing, `int` rejects it or datetime
      cannot represent it; otherwise the text reads back as the vehicle's
      timestamp. */
  function TimestampText(record: Value): (r: Result<string, Exception>)
    ensures r.Success? <==> HasValidTimestamp(record)
    ensures r.Success? ==> r.value == ExpectedTimestamp(record)
    ensures r.Success? ==>
      Timestamp.Parse(r.value).Some? &&
      Timestamp.ToUnix(Timestamp.Parse(r.value).value) == IntOf(VehicleTimestamp(record).value).value
  {
    var vehicle :- Subscript(record, "vehicle");
    var stamp :- Subscript(vehicle, "timestamp");
    var seconds :- IntOf(stamp);
    Timestamp.FormatUnixTimestamp(seconds)
  }

  function VehicleTimestamp(entity: Value): Option<Value> {
    Then(Vehicle(entity), "timestamp")
  }

  /** The vehicle's timestamp is present, `int` accepts it and datetime
      can represent the second it denotes. */
  predicate HasValidTimestamp(entity: Value) {
    && VehicleTimestamp(entity).Some?
    && IntOf(VehicleTimestamp(entity).value).Success?
    && Timestamp.MinTimestamp <= IntOf(VehicleTimestamp(entity).value).value < Timestamp.EndTimestamp
  }

  /** The `@timestamp` text of an entity with a valid timestamp. */
  function ExpectedTimestamp(entity: Value): string
    requires HasValidTimestamp(entity)
  {
    Timestamp.FormatUnixTimestamp(IntOf(VehicleTimestamp(entity).value).value).value
  }

  /** When the variant transforms an entity without raising: it is a
      dictionary (it always is, coming from MessageToDict), its location
      can be read and its timestamp rendered. */
  ghost predicate Transformable(variant: Variant, entity: Value) {
    entity.JObj? && LocationReadable(variant, entity) && HasValidTimestamp(entity)
  }

  /** Everything the transformation reads sits under `vehicle`, so two
      records with the same vehicle are treated alike. */
  lemma SameVehicle(variant: Variant, a: Value, b: Value)
    requires Vehicle(a) == Vehicle(b)
    ensures Transformable(variant, a) == Transformable(variant, b)
    ensures LocationReadable(variant, a) == LocationReadable(variant, b)
    ensures HasCoordinates(a) == HasCoordinates(b)
    ensures HasCoordinates(a) ==> ExpectedLocation(a) == ExpectedLocation(b)
    ensures HasValidTimestamp(a) == HasValidTimestamp(b)
    ensures HasValidTimestamp(a) ==> ExpectedTimestamp(a) == ExpectedTimestamp(b)
  {
  }

  /** The three assignments `record["hash"] = ...`, the optional
      `record["location"] = ...` and `record["@timestamp"] = ...`, in order. */
  function AddFields(fs: seq<Field>, hash: string, location: Option<Value>, stamp: string): seq<Field> {
    var withHash := SetKey(fs, "hash", JStr(hash));
    var withLocation := if location.Some? then SetKey(withHash, "location", location.value) else withHash;
    SetKey(withLocation, "@timestamp", JStr(stamp))
  }

  /** The added fields hold exactly what was assigned and every other key
      keeps its value. */
  lemma AddFieldsValues(fs: seq<Field>, hash: string, location: Option<Value>, stamp: string)
    ensures var r := AddFields(fs, hash, location, stamp);
      && Get(r, "hash") == Some(JStr(hash))
      && Get(r, "location") == (if location.Some? then location else Get(fs, "location"))
      && Get(r, "@timestamp") == Some(JStr(stamp))
      && (forall k :: k != "hash" && k != "location" && k != "@timestamp" ==> Get(r, k) == Get(fs, k))
  {
    var withHash := SetKey(fs, "hash", JStr(hash));
    var withLocation := if location.Some? then SetKey(withHash, "location", location.value) else withHash;
    var r := SetKey(withLocation, "@timestamp", JStr(stamp));
    assert r == AddFields(fs, hash, location, stamp);
    DistinctAddedKeys();
    GetAfterSetKey(withLocation, "@timestamp", JStr(stamp));
    if location.Some? {
      GetAfterSetKey(withHash, "location", location.value);
    }
    GetAfterSetKey(fs, "hash", JStr(hash));
  }

  lemma DistinctAddedKeys()
    ensures "hash" != "location" && "hash" != "@timestamp" && "location" != "@timestamp"
  {
    assert |"hash"| == 4 && |"location"| == 8 && |"@timestamp"| == 10;
  }

  /** The original keys stay in front, in their order. */
  lemma AddFieldsKeys(fs: seq<Field>, hash: string, location: Option<Value>, stamp: string)
    ensures Keys(fs) <= Keys(AddFields(fs, hash, location, stamp))
  {
    var withHash := SetKey(fs, "hash", JStr(hash));
    var withLocation := if location.Some? then SetKey(withHash, "location", location.value) else withHash;
    var r := SetKey(withLocation, "@timestamp", JStr(stamp));
    KeysPrefixOfSetKey(fs, "hash", JStr(hash));
    KeysPrefixOfSetKey(withHash, "location", if location.Some? then location.value else JNull);
    KeysPrefixOfSetKey(withLocation, "@timestamp", JStr(stamp));
    PrefixTransitive(Keys(fs), Keys(withHash), Keys(withLocation));
    PrefixTransitive(Keys(fs), Keys(withLocation), Keys(r));
  }

  lemma PrefixTransitive<T>(a: seq<T>, b: seq<T>, c: seq<T>)
    requires a <= b && b <= c
    ensures a <= c
  {
    assert a == b[..|a|] && b == c[..|b|];
    assert c[..|b|][..|a|] == c[..|a|];
  }

  /** The body of the `for entity in records.entity` loop for one entity:
      hash the converted entity, then add `hash`, the optional `location`
      and `@timestamp`, raising where the dictionary lookups raise. What the
      document holds is stated by FormatRecordContents. */
  function FormatRecord(variant: Variant, entity: Value, fingerprint: Fingerprint): (r: Result<Value, Exception>)
    ensures r.Success? <==> Transformable(variant, entity)
    ensures r.Success? ==> r.value.JObj?
  {
    if !entity.JObj? then Failure(TypeError)
    else
      var hash := ContentHash(entity, fingerprint);
      var withHash := SetKey(entity.fields, "hash", JStr(hash));
      SameVehicle(variant, entity, JObj(withHash));
      var location :- Location(variant, JObj(withHash));
      var withLocation := if location.Some? then SetKey(withHash, "location", location.value) else withHash;
      SameVehicle(variant, entity, JObj(withLocation));
      var stamp :- TimestampText(JObj(withLocation));
      Success(JObj(AddFields(entity.fields, hash, location, stamp)))
  }

  /** What a transformed document is made of. */
  lemma FormatRecordShape(variant: Variant, entity: Value, fingerprint: Fingerprint)
    requires entity.JObj? && Transformable(variant, entity)
    ensures FormatRecord(variant, entity, fingerprint).value.fields ==
      AddFields(entity.fields, ContentHash(entity, fingerprint),
                if HasCoordinates(entity) then Some(ExpectedLocation(entity)) else None,
                ExpectedTimestamp(entity))
  {
    var hash := ContentHash(entity, fingerprint);
    var withHash := SetKey(entity.fields, "hash", JStr(hash));
    SameVehicle(variant, entity, JObj(withHash));
    var location := Location(variant, JObj(withHash)).value;
    var withLocation := if location.Some? then SetKey(withHash, "location", location.value) else withHash;
    SameVehicle(variant, entity, JObj(withLocation));
  }

  /** The document of a transformable entity: `hash` covers the converted
      entity as it was before any field was added, `location` is the
      lon/lat pair when both coordinates are truthy (an existing
      `location` is otherwise kept), `@timestamp` is the vehicle's
      timestamp in UTC, no other field is altered and the original keys
      keep their order at the front. */
  lemma FormatRecordContents(variant: Variant, entity: Value, fingerprint: Fingerprint)
    requires entity.JObj? && Transformable(variant, entity)
    ensures var doc := FormatRecord(variant, entity, fingerprint).value;
      && Get(doc.fields, "hash") == Some(JStr(ContentHash(entity, fingerprint)))
      && Get(doc.fields, "location") ==
           (if HasCoordinates(entity) then Some(ExpectedLocation(entity)) else Get(entity.fields, "location"))
      && Get(doc.fields, "@timestamp") == Some(JStr(ExpectedTimestamp(entity)))
      && (forall k :: k != "hash" && k != "location" && k != "@timestamp" ==>
            Get(doc.fields, k) == Get(entity.fields, k))
      && Keys(entity.fields) <= Keys(doc.fields)
  {
    var location := if HasCoordinates(entity) then Some(ExpectedLocation(entity)) else None;
    FormatRecordShape(variant, entity, fingerprint);
    AddFieldsValues(entity.fields, ContentHash(entity, fingerprint), location, ExpectedTimestamp(entity));
    AddFieldsKeys(entity.fields, ContentHash(entity, fingerprint), location, ExpectedTimestamp(entity));
  }

  /** `format_data(records)`: one document per entity, in entity order.
      The first entity that cannot be transformed raises out of the whole
      call, so either every entity is transformed or nothing is returned. */
  function FormatData(variant: Variant, entities: seq<Value>, fingerprint: Fingerprint): (r: Result<seq<Value>, Exception>)
    ensures r.Success? <==> forall i :: 0 <= i < |entities| ==> Transformable(variant, entities[i])
    ensures r.Success? ==> |r.value| == |entities|
    ensures r.Success? ==>
      forall i :: 0 <= i < |entities| ==> FormatRecord(variant, entities[i], fingerprint) == Success(r.value[i])
  {
    MapResult(e => FormatRecord(variant, e, fingerprint), entities)
  }

  /** The exception format_data raises is the one raised for the first
      entity that cannot be transformed. */
  lemma FormatDataFirstFailure(variant: Variant, entities: seq<Value>, fingerprint: Fingerprint, i: nat)
    requires i < |entities| && !Transformable(variant, entities[i])
    requires forall j :: 0 <= j < i ==> Transformable(variant, entities[j])
    ensures FormatData(variant, entities, fingerprint) == Failure(FormatRecord(variant, entities[i], fingerprint).error)
  {
    MapResultFirstFailure(e => FormatRecord(variant, e, fingerprint), entities, i);
  }

  /** Every document format_data returns carries `hash` and `@timestamp`. */
  lemma EveryDocumentStamped(variant: Variant, entities: seq<Value>, fingerprint: Fingerprint)
    requires FormatData(variant, entities, fingerprint).Success?
    ensures forall d :: d in FormatData(variant, entities, fingerprint).value ==>
      d.JObj? && "hash" in Keys(d.fields) && "@timestamp" in Keys(d.fields)
  {
    var docs := FormatData(variant, entities, fingerprint).value;
    forall d | d in docs
      ensures d.JObj? && "hash" in Keys(d.fields) && "@timestamp" in Keys(d.fields)
    {
      var i :| 0 <= i < |docs| && docs[i] == d;
      assert FormatRecord(variant, entities[i], fingerprint) == Success(d);
      FormatRecordContents(variant, entities[i], fingerprint);
    }
  }

  /** Two entities that are equal as Python dictionaries, whatever order
      their keys were inserted in, get the same hash. */
  lemma HashIgnoresKeyOrder(variant: Variant, a: Value, b: Value, fingerprint: Fingerprint)
    requires a.JObj? && b.JObj?
    requires WellFormed(a) && WellFormed(b) && Canonical.SameUpToKeyOrder(a, b)
    requires Transformable(variant, a) && Transformable(variant, b)
    ensures Get(FormatRecord(variant, a, fingerprint).value.fields, "hash")
         == Get(FormatRecord(variant, b, fingerprint).value.fields, "hash")
  {
    Canonical.CanonOrderIndependent(a, b);
    FormatRecordContents(variant, a, fingerprint);
    FormatRecordContents(variant, b, fingerprint);
  }

  /** The keys the transformation adds. */
  const AddedKeys: set<string> := {"hash", "location", "@timestamp"}

  /** The fields appended to an entity that has none of the added keys. */
  function AddedFields(hash: string, location: Option<Value>, stamp: string): seq<Field> {
    [Field("hash", JStr(hash))]
      + (if location.Some? then [Field("location", location.value)] else [])
      + [Field("@timestamp", JStr(stamp))]
  }

  /** On an entity lacking all three keys, the assignments append. */
  lemma AddFieldsAppend(fs: seq<Field>, hash: string, location: Option<Value>, stamp: string)
    requires forall k :: k in AddedKeys ==> k !in Keys(fs)
    ensures AddFields(fs, hash, location, stamp) == fs + AddedFields(hash, location, stamp)
  {
    DistinctAddedKeys();
    var hashField := [Field("hash", JStr(hash))];
    var locationFields := if location.Some? then [Field("location", location.value)] else [];
    var stampField := [Field("@timestamp", JStr(stamp))];
    var withHash := SetKey(fs, "hash", JStr(hash));
    SetNewKey(fs, "hash", JStr(hash));
    var withLocation := if location.Some? then SetKey(withHash, "location", location.value) else withHash;
    SetOptionalNewKey(withHash, "location", location);
    SetNewKey(withLocation, "@timestamp", JStr(stamp));
    ConcatAssociative(fs, hashField + locationFields, stampField);
    ConcatAssociative(fs, hashField, locationFields);
  }

  /** An optional assignment of a key not yet present appends at most one
      entry. */
  lemma SetOptionalNewKey(fs: seq<Field>, k: string, o: Option<Value>)
    requires k !in Keys(fs)
    ensures var r := if o.Some? then SetKey(fs, k, o.value) else fs;
      && r == fs + (if o.Some? then [Field(k, o.value)] else [])
      && Keys(r) == Keys(fs) + (if o.Some? then [k] else [])
  {
    if o.Some? {
      SetNewKey(fs, k, o.value);
    } else {
      assert fs + [] == fs;
      assert Keys(fs) + [] == Keys(fs);
    }
  }

  /** For an entity that has none of the added keys (no feed entity has),
      the document is the entity followed by the added fields: dropping
      them gives back the entity, so the stored `hash` can be recomputed
      from the document's own remaining content. */
  lemma DocumentExtendsEntity(variant: Variant, entity: Value, fingerprint: Fingerprint)
    requires entity.JObj? && Transformable(variant, entity)
    requires forall k :: k in AddedKeys ==> k !in Keys(entity.fields)
    ensures var doc := FormatRecord(variant, entity, fingerprint).value;
      && WithoutKeys(doc.fields, AddedKeys) == entity.fields
      && Get(doc.fields, "hash") == Some(JStr(ContentHash(JObj(WithoutKeys(doc.fields, AddedKeys)), fingerprint)))
  {
    var fs := entity.fields;
    var location := if HasCoordinates(entity) then Some(ExpectedLocation(entity)) else None;
    var tail := AddedFields(ContentHash(entity, fingerprint), location, ExpectedTimestamp(entity));
    FormatRecordShape(variant, entity, fingerprint);
    AddFieldsAppend(fs, ContentHash(entity, fingerprint), location, ExpectedTimestamp(entity));
    WithoutKeysAppend(fs, tail, AddedKeys);
    WithoutAbsentKeys(fs, AddedKeys);
    DropAddedFields(ContentHash(entity, fingerprint), location, ExpectedTimestamp(entity));
  }

  lemma DropAddedFields(hash: string, location: Option<Value>, stamp: string)
    ensures WithoutKeys(AddedFields(hash, location, stamp), AddedKeys) == []
  {
    var tail := AddedFields(hash, location, stamp);
    assert forall i :: 0 <= i < |tail| ==> tail[i].key in AddedKeys;
    WithoutEveryKey(tail, AddedKeys);
  }

  /** app/app.py reads `vehicle["position"]` unconditionally: a vehicle
      without a position makes the whole transformation raise KeyError. */
  lemma AppRejectsMissingPosition(entity: Value, fingerprint: Fingerprint)
    requires entity.JObj?
    requires Vehicle(entity).Some? && Vehicle(entity).value.JObj?
    requires "position" !in Keys(Vehicle(entity).value.fields)
    ensures FormatRecord(AppVariant, entity, fingerprint) == Failure(KeyError("position"))
  {
    var withHash := SetKey(entity.fields, "hash", JStr(ContentHash(entity, fingerprint)));
    assert |"hash"| != |"vehicle"|;
    assert Get(withHash, "vehicle") == Get(entity.fields, "vehicle");
  }

  /** main.py checks `"position" in vehicle` first: a vehicle without a
      position gets no location and raises nothing on that account. */
  lemma MainToleratesMissingPosition(entity: Value, fingerprint: Fingerprint)
    requires entity.JObj?
    requires Vehicle(entity).Some? && Vehicle(entity).value.JObj?
    requires "position" !in Keys(Vehicle(entity).value.fields)
    ensures FormatRecord(MainVariant, entity, fingerprint).Success? <==> HasValidTimestamp(entity)
    ensures FormatRecord(MainVariant, entity, fingerprint).Success? ==>
      Get(FormatRecord(MainVariant, entity, fingerprint).value.fields, "location") == Get(entity.fields, "location")
  {
    if FormatRecord(MainVariant, entity, fingerprint).Success? {
      FormatRecordContents(MainVariant, entity, fingerprint);
    }
  }
}
