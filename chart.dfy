/**
 * The generic geographic walker `_CHART.get_geojson` (ChartTools.py lines
 * 10-40), which the speed, RWIS, DMS and CCTV feeds inherit. Each top-level
 * element of the parsed document is one record whose children are scalar
 * attributes.
 */
module Chart {
  import opened Wrappers
  import opened PyDict
  import opened Xml
  import opened GeoJson

  /** Lines 26-27: every attribute's tag assigned its text, in document order. */
  method ReadAttributes(record: Element) returns (properties: Properties)
    ensures properties == PropertiesOf(Scalar, record)
  {
    properties := [];
    for j := 0 to |record.children|
      invariant properties == FromPairs(AttributePairs(Scalar, record.children[..j]))
    {
      var attribute := record.children[j];
      assert AttributePairs(Scalar, record.children[..j + 1])[..j] == AttributePairs(Scalar, record.children[..j]);
      properties := Put(properties, attribute.tag, Text(attribute.text));
    }
    assert record.children[..|record.children|] == record.children;
  }

  /**
   * Lines 15-40, after the fetch and the parse: one feature per record in
   * document order, `featureCount` kept equal to the number of features
   * appended, `None` when nothing was appended, and a `KeyError` from the
   * first record without a longitude or latitude.
   */
  method GetGeoJson(root: Element) returns (r: Result<Option<FeatureCollection>>)
    ensures r == Walk(Scalar, root.children)
  {
    var records := root.children;
    var features: seq<Feature> := [];
    var featureCount := 0;
    for i := 0 to |records|
      invariant FeaturesOf(Scalar, records[..i]) == Ok(features)
      invariant featureCount == |features|
    {
      var properties := ReadAttributes(records[i]);
      var feature := MakeFeature(properties);
      StepFeatures(Scalar, records, i, features);
      if feature.Err? {
        return Err(feature.error);
      }
      features := features + [feature.value];
      featureCount := featureCount + 1;
    }
    assert records[..|records|] == records;
    if featureCount > 0 {
      r := Ok(Some(FeatureCollection("FeatureCollection", featureCount, features)));
    } else {
      r := Ok(None);
    }
  }

  /** Every attribute is stored as text; a repeated tag keeps the text of its last occurrence. */
  lemma ScalarAttributeStored(record: Element, i: nat)
    requires i < |record.children|
    requires forall j :: i < j < |record.children| ==> record.children[j].tag != record.children[i].tag
    ensures Get(PropertiesOf(Scalar, record), record.children[i].tag) == Some(Text(record.children[i].text))
  {
    AttributeStored(Scalar, record, i);
  }

  /** With distinct attribute tags, the properties mirror the attributes exactly, in document order. */
  lemma ScalarPropertiesMirrorAttributes(record: Element)
    requires Distinct(Tags(record.children))
    ensures PropertiesOf(Scalar, record) == AttributePairs(Scalar, record.children)
    ensures |PropertiesOf(Scalar, record)| == |record.children|
    ensures forall i :: 0 <= i < |record.children| ==>
              PropertiesOf(Scalar, record)[i] == (record.children[i].tag, Text(record.children[i].text))
  {
    var pairs := AttributePairs(Scalar, record.children);
    assert PropertiesOf(Scalar, record) == pairs by {
      AttributeKeysAreTags(Scalar, record.children);
      DistinctPairsKept(pairs);
    }
    assert forall i :: 0 <= i < |record.children| ==> pairs[i] == (record.children[i].tag, Text(record.children[i].text));
  }
}
