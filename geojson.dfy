/**
 * The GeoJSON-style output of the geographic walkers and its specification:
 * what a record becomes, what a walk over records produces, and the
 * properties that every geographic walker shares (ChartTools.py lines 15-40,
 * 54-91 and 112-149).
 */
module GeoJson {
  import opened Wrappers
  import opened PyDict
  import opened Xml
  import opened Records

  /** A property value: an attribute's text, or the lane records of an attribute tagged `lanes`. */
  datatype Value = Text(text: Option<string>) | Lanes(lanes: seq<Record>)

  /** `feature['properties']`: attribute tag to value, in insertion order. */
  type Properties = Dict<Value>

  /** `{'type': 'Point', 'coordinates': [lon, lat]}`; the coordinates stay raw XML text. */
  datatype Geometry = Geometry(kind: string, coordinates: seq<Value>)

  /** `{'type': 'Feature', 'properties': ..., 'geometry': ...}`. */
  datatype Feature = Feature(kind: string, properties: Properties, geometry: Geometry)

  /** `{'type': 'FeatureCollection', 'featureCount': n, 'features': [...]}`. */
  datatype FeatureCollection = FeatureCollection(kind: string, featureCount: int, features: seq<Feature>)

  /**
   * How a record's attributes are read: every attribute as text (the generic
   * walker), or with an attribute tagged `lanes` unwrapped into lane records
   * (the incidents and closures walkers).
   */
  datatype Shape = Scalar | LanesAware

  /** The value stored for one attribute of a record. */
  function AttributeValue(shape: Shape, attribute: Element): Value
  {
    if shape == LanesAware && attribute.tag == "lanes" then Lanes(RecordsOf(attribute.children))
    else Text(attribute.text)
  }

  /** The (tag, value) assignments a record's attributes make, in document order. */
  function AttributePairs(shape: Shape, attributes: seq<Element>): seq<(string, Value)>
  {
    seq(|attributes|, i requires 0 <= i < |attributes| => (attributes[i].tag, AttributeValue(shape, attributes[i])))
  }

  /** The keys the attribute loop assigns are the attribute tags, in document order. */
  lemma AttributeKeysAreTags(shape: Shape, attributes: seq<Element>)
    ensures Keys(AttributePairs(shape, attributes)) == Tags(attributes)
  {
  }

  /** The properties of a record once all of its attributes are assigned. */
  function PropertiesOf(shape: Shape, record: Element): Properties
  {
    FromPairs(AttributePairs(shape, record.children))
  }

  /**
   * The geometry step: `properties['longitude']`, then `properties['latitude']`,
   * each raising `KeyError` when missing.
   */
  function MakeFeature(properties: Properties): (r: Result<Feature>)
    ensures r.Ok? <==> "longitude" in Keys(properties) && "latitude" in Keys(properties)
    ensures r.Err? ==> r.error == KeyError(if "longitude" in Keys(properties) then "latitude" else "longitude")
    ensures r.Ok? ==> r.value.kind == "Feature" && r.value.properties == properties
    ensures r.Ok? ==> r.value.geometry.kind == "Point"
    ensures r.Ok? ==> r.value.geometry.coordinates == [Get(properties, "longitude").value, Get(properties, "latitude").value]
  {
    match Get(properties, "longitude")
    case None => Err(KeyError("longitude"))
    case Some(lon) =>
      match Get(properties, "latitude")
      case None => Err(KeyError("latitude"))
      case Some(lat) => Ok(Feature("Feature", properties, Geometry("Point", [lon, lat])))
  }

  /** The feature one record becomes, or the error its geometry step raises. */
  function FeatureOf(shape: Shape, record: Element): Result<Feature>
  {
    MakeFeature(PropertiesOf(shape, record))
  }

  /** The outcome of each record's geometry step, in document order. */
  function FeatureResults(shape: Shape, records: seq<Element>): seq<Result<Feature>>
  {
    seq(|records|, i requires 0 <= i < |records| => FeatureOf(shape, records[i]))
  }

  /**
   * The features appended for `records`, one per record in document order;
   * the first record whose geometry step fails aborts the walk with its error.
   */
  function FeaturesOf(shape: Shape, records: seq<Element>): Result<seq<Feature>>
  {
    Sequence(FeatureResults(shape, records))
  }

  /** The end of a walk: the collection when at least one feature was appended, otherwise `None`. */
  function Collect(features: seq<Feature>): Option<FeatureCollection>
  {
    if |features| > 0 then Some(FeatureCollection("FeatureCollection", |features|, features)) else None
  }

  /** What a geographic walk over `records` returns, or the error that aborts it. */
  function Walk(shape: Shape, records: seq<Element>): Result<Option<FeatureCollection>>
  {
    match FeaturesOf(shape, records)
    case Err(e) => Err(e)
    case Ok(features) => Ok(Collect(features))
  }

  /** A walk over one record whose geometry step succeeds collects exactly that record's feature. */
  lemma SingleRecordWalk(shape: Shape, record: Element, f: Feature)
    requires FeatureOf(shape, record) == Ok(f)
    ensures Walk(shape, [record]) == Ok(Some(FeatureCollection("FeatureCollection", 1, [f])))
  {
    assert FeatureResults(shape, [record]) == [] + [Ok(f)];
    SequenceStep([], Ok(f));
    assert [] + [f] == [f];
  }

  /** One more record extends a successful walk by that record's feature, or aborts it with its error. */
  lemma StepFeatures(shape: Shape, records: seq<Element>, i: nat, features: seq<Feature>)
    requires i < |records|
    requires FeaturesOf(shape, records[..i]) == Ok(features)
    ensures FeaturesOf(shape, records[..i + 1]) ==
              match FeatureOf(shape, records[i])
              case Err(e) => Err(e)
              case Ok(f) => Ok(features + [f])
    ensures FeatureOf(shape, records[i]).Err? ==> FeaturesOf(shape, records) == Err(FeatureOf(shape, records[i]).error)
  {
    var last := FeatureOf(shape, records[i]);
    assert records[..i + 1] == records[..i] + [records[i]];
    ResultsAppend(shape, records[..i], records[i]);
    SequenceStep(FeatureResults(shape, records[..i]), last);
    if last.Err? {
      PrefixFailureAborts(shape, records, i + 1);
    }
  }

  /** The outcomes of `records + [record]` are those of `records`, then the new record's. */
  lemma ResultsAppend(shape: Shape, records: seq<Element>, record: Element)
    ensures FeatureResults(shape, records + [record]) == FeatureResults(shape, records) + [FeatureOf(shape, record)]
  {
  }

  /** A record appended to a successful walk adds its feature, or aborts the walk with its error. */
  lemma StepAppend(shape: Shape, records: seq<Element>, record: Element, features: seq<Feature>)
    requires FeaturesOf(shape, records) == Ok(features)
    ensures var outcome := FeatureOf(shape, record);
            && (outcome.Err? ==> FeaturesOf(shape, records + [record]) == Err(outcome.error))
            && (outcome.Ok? ==> FeaturesOf(shape, records + [record]) == Ok(features + [outcome.value]))
  {
    ResultsAppend(shape, records, record);
    SequenceStep(FeatureResults(shape, records), FeatureOf(shape, record));
  }

  /** Once the walk over a prefix of the records has failed, the whole walk fails with that error. */
  lemma PrefixFailureAborts(shape: Shape, records: seq<Element>, k: nat)
    requires k <= |records|
    requires FeaturesOf(shape, records[..k]).Err?
    ensures FeaturesOf(shape, records) == FeaturesOf(shape, records[..k])
  {
    assert FeatureResults(shape, records)[..k] == FeatureResults(shape, records[..k]);
    PrefixErrorStands(FeatureResults(shape, records), k);
  }

  /**
   * The collection's shape: it is returned only when at least one feature was
   * appended, `featureCount` equals the number of features, which is the number
   * of records, and no records means `None`.
   */
  lemma WalkCount(shape: Shape, records: seq<Element>)
    ensures Walk(shape, records) == Ok(None) <==> records == []
    ensures Walk(shape, records).Ok? && Walk(shape, records).value.Some? ==>
              var fc := Walk(shape, records).value.value;
              fc.kind == "FeatureCollection" && fc.featureCount == |fc.features| == |records| > 0
  {
  }

  /**
   * Document order: the i-th feature is the one built from the i-th record;
   * it is a `Feature` with a `Point` geometry whose coordinates are the
   * record's longitude and latitude, in that order.
   */
  lemma FeatureAt(shape: Shape, records: seq<Element>, i: nat)
    requires i < |records|
    requires Walk(shape, records).Ok?
    ensures records != [] && Walk(shape, records).value.Some?
    ensures var f := Walk(shape, records).value.value.features[i];
            var p := PropertiesOf(shape, records[i]);
            && f.kind == "Feature"
            && f.properties == p
            && f.geometry.kind == "Point"
            && |f.geometry.coordinates| == 2
            && Get(p, "longitude") == Some(f.geometry.coordinates[0])
            && Get(p, "latitude") == Some(f.geometry.coordinates[1])
  {
    var fs := FeaturesOf(shape, records).value;
    assert FeatureResults(shape, records)[i] == Ok(fs[i]);
  }

  /**
   * A walk fails exactly when some record lacks a longitude or latitude
   * attribute; the error is the `KeyError` of the first such record, longitude
   * looked up before latitude. No record is silently dropped.
   */
  lemma MissingCoordinateAborts(shape: Shape, records: seq<Element>, i: nat)
    requires i < |records|
    requires !("longitude" in Tags(records[i].children) && "latitude" in Tags(records[i].children))
    requires forall j :: 0 <= j < i ==> "longitude" in Tags(records[j].children) && "latitude" in Tags(records[j].children)
    ensures Walk(shape, records) ==
              Err(KeyError(if "longitude" in Tags(records[i].children) then "latitude" else "longitude"))
  {
    forall j | 0 <= j <= i
      ensures forall k :: k in Keys(PropertiesOf(shape, records[j])) <==> k in Tags(records[j].children)
    {
      assert Keys(AttributePairs(shape, records[j].children)) == Tags(records[j].children);
      FromPairsKeys(AttributePairs(shape, records[j].children));
    }
    FirstErrorReported(FeatureResults(shape, records), i);
  }

  /** The geometry step succeeds exactly when the record has both a longitude and a latitude attribute. */
  lemma CoordinatesPresent(shape: Shape, record: Element)
    ensures FeatureOf(shape, record).Ok? <==>
              "longitude" in Tags(record.children) && "latitude" in Tags(record.children)
  {
    assert Keys(AttributePairs(shape, record.children)) == Tags(record.children);
    FromPairsKeys(AttributePairs(shape, record.children));
  }

  /** A walk over records that all carry both coordinates returns normally. */
  lemma CoordinatesPresentSucceeds(shape: Shape, records: seq<Element>)
    requires forall j :: 0 <= j < |records| ==> "longitude" in Tags(records[j].children) && "latitude" in Tags(records[j].children)
    ensures Walk(shape, records).Ok?
  {
    forall j | 0 <= j < |records| ensures FeatureResults(shape, records)[j].Ok? {
      CoordinatesPresent(shape, records[j]);
    }
  }

  /** An attribute that no later attribute of the record repeats keeps its value. */
  lemma AttributeStored(shape: Shape, record: Element, i: nat)
    requires i < |record.children|
    requires forall j :: i < j < |record.children| ==> record.children[j].tag != record.children[i].tag
    ensures Get(PropertiesOf(shape, record), record.children[i].tag) == Some(AttributeValue(shape, record.children[i]))
  {
    LaterAssignmentWins(AttributePairs(shape, record.children), i);
  }
}
