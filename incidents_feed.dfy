/**
 * The incidents walker `Incidents_Feed.get_geojson` (ChartTools.py lines
 * 49-91): the generic walk, except that an attribute tagged `lanes` is read
 * as a list of lane records.
 */
module IncidentsFeed {
  import opened Wrappers
  import opened PyDict
  import opened Xml
  import opened Records
  import opened GeoJson

  /**
   * Lines 65-78: attributes not tagged `lanes` are stored as text; an attribute
   * tagged `lanes` is stored as one record per lane child, in document order.
   */
  method ReadAttributes(record: Element) returns (properties: Properties)
    ensures properties == PropertiesOf(LanesAware, record)
  {
    properties := [];
    for j := 0 to |record.children|
      invariant properties == FromPairs(AttributePairs(LanesAware, record.children[..j]))
    {
      var attribute := record.children[j];
      assert AttributePairs(LanesAware, record.children[..j + 1])[..j] == AttributePairs(LanesAware, record.children[..j]);
      if attribute.tag != "lanes" {
        properties := Put(properties, attribute.tag, Text(attribute.text));
      } else {
        var lanes := CollectRecords(attribute.children);
        assert lanes == RecordsOf(attribute.children);
        properties := Put(properties, attribute.tag, Lanes(lanes));
      }
    }
    assert record.children[..|record.children|] == record.children;
  }

  /**
   * Lines 54-91, after the fetch and the parse: the walk of the generic walker
   * with lane-aware records.
   */
  method GetGeoJson(root: Element) returns (r: Result<Option<FeatureCollection>>)
    ensures r == Walk(LanesAware, root.children)
  {
    var incidents := root.children;
    var features: seq<Feature> := [];
    var featureCount := 0;
    for i := 0 to |incidents|
      invariant FeaturesOf(LanesAware, incidents[..i]) == Ok(features)
      invariant featureCount == |features|
    {
      var properties := ReadAttributes(incidents[i]);
      var feature := MakeFeature(properties);
      StepFeatures(LanesAware, incidents, i, features);
      if feature.Err? {
        return Err(feature.error);
      }
      features := features + [feature.value];
      featureCount := featureCount + 1;
    }
    assert incidents[..|incidents|] == incidents;
    if featureCount > 0 {
      r := Ok(Some(FeatureCollection("FeatureCollection", featureCount, features)));
    } else {
      r := Ok(None);
    }
  }

  /** An attribute not tagged `lanes`, not repeated later in its record, is stored as its text. */
  lemma ScalarAttributeStored(incident: Element, i: nat)
    requires i < |incident.children| && incident.children[i].tag != "lanes"
    requires forall j :: i < j < |incident.children| ==> incident.children[j].tag != incident.children[i].tag
    ensures Get(PropertiesOf(LanesAware, incident), incident.children[i].tag) == Some(Text(incident.children[i].text))
  {
    AttributeStored(LanesAware, incident, i);
  }

  /**
   * The last attribute tagged `lanes` becomes a list with one record per lane
   * child, in document order, each lane's field tags sent to their texts.
   */
  lemma LanesStored(incident: Element, i: nat)
    requires i < |incident.children| && incident.children[i].tag == "lanes"
    requires forall j :: i < j < |incident.children| ==> incident.children[j].tag != "lanes"
    ensures Get(PropertiesOf(LanesAware, incident), "lanes").Some?
    ensures var v := Get(PropertiesOf(LanesAware, incident), "lanes").value;
            var lanes := incident.children[i].children;
            && v.Lanes?
            && |v.lanes| == |lanes|
            && forall k :: 0 <= k < |lanes| ==> v.lanes[k] == RecordOf(lanes[k])
  {
    AttributeStored(LanesAware, incident, i);
  }

  /** Only the key `lanes` can hold anything other than text. */
  lemma OnlyLanesIsAList(incident: Element, key: string)
    requires key != "lanes" && Get(PropertiesOf(LanesAware, incident), key).Some?
    ensures Get(PropertiesOf(LanesAware, incident), key).value.Text?
  {
    var ps := AttributePairs(LanesAware, incident.children);
    var d := PropertiesOf(LanesAware, incident);
    FoundIsEntry(d, key);
    EntriesWereAssigned(ps, key, Get(d, key).value);
  }

  /** A closed lane. */
  const ExampleLane := Element("Lane", None, [Element("status", Some("closed"), [])])

  /** An incident with an id, its coordinates and one lane. */
  const ExampleIncident := Element("Incident", None, [
    Element("id", Some("1"), []),
    Element("longitude", Some("-76.6"), []),
    Element("latitude", Some("39.3"), []),
    Element("lanes", None, [ExampleLane])])

  /** The properties expected of `ExampleIncident`, in document order. */
  const ExampleProperties: Properties := [
    ("id", Text(Some("1"))),
    ("longitude", Text(Some("-76.6"))),
    ("latitude", Text(Some("39.3"))),
    ("lanes", Lanes([[("status", Some("closed"))]]))]

  /** The example incident's properties are its attributes in document order, the lane read as a record. */
  lemma ExamplePropertiesRead()
    ensures PropertiesOf(LanesAware, ExampleIncident) == ExampleProperties
  {
    RecordMirrorsFields(ExampleLane);
    assert RecordsOf([ExampleLane]) == [[("status", Some("closed"))]];
    var pairs := AttributePairs(LanesAware, ExampleIncident.children);
    assert pairs == ExampleProperties;
    assert Keys(pairs) == ["id", "longitude", "latitude", "lanes"];
    DistinctPairsKept(pairs);
  }

  /**
   * The example incident yields one feature whose properties keep the
   * attributes in document order, with the lane as a one-entry record and the
   * coordinates as the raw longitude and latitude texts, longitude first.
   */
  lemma OneIncidentExample()
    ensures Walk(LanesAware, [ExampleIncident]) ==
              Ok(Some(FeatureCollection("FeatureCollection", 1, [
                Feature("Feature", ExampleProperties, Geometry("Point", [Text(Some("-76.6")), Text(Some("39.3"))]))])))
  {
    ExamplePropertiesRead();
    IndexOfIsFirst(ExampleProperties, "longitude", 1);
    IndexOfIsFirst(ExampleProperties, "latitude", 2);
    var f := Feature("Feature", ExampleProperties, Geometry("Point", [Text(Some("-76.6")), Text(Some("39.3"))]));
    assert MakeFeature(ExampleProperties) == Ok(f);
    SingleRecordWalk(LanesAware, ExampleIncident, f);
  }
}
