/**
 * The snow-emergency walker `Snow_Emergency_Feed.get_declarations`
 * (ChartTools.py lines 274-297), from the parsed document on. Line 290
 * rebinds the loop variable `event` to a new empty dict before the inner loop
 * reads it, so every declaration comes out empty.
 */
module SnowEmergencyFeed {
  import opened Wrappers
  import opened PyDict
  import opened Xml
  import opened Records

  /**
   * Lines 281-297 as written: one empty declaration per event, in the list
   * named `declarations`, or `None` when there are no events.
   */
  method GetDeclarations(root: Element) returns (r: Option<RecordList>)
    ensures r.None? <==> root.children == []
    ensures r.Some? ==> r.value.name == "declarations" && |r.value.records| == |root.children|
    ensures r.Some? ==> forall i :: 0 <= i < |r.value.records| ==> r.value.records[i] == []
  {
    var declarations: seq<Record> := [];
    for i := 0 to |root.children|
      invariant |declarations| == i
      invariant forall k :: 0 <= k < i ==> declarations[k] == []
    {
      // line 290: `event` now names a new empty dict, so the loop at line 291
      // has no keys to visit and line 292 never runs
      var event: Record := [];
      declarations := declarations + [event];
    }
    if |declarations| > 0 {
      r := Some(RecordList("declarations", declarations));
    } else {
      r := None;
    }
  }

  /**
   * The walk lines 289-297 evidently intend: one flat tag-to-text record per
   * event, in document order, or `None` when there are no events.
   */
  method GetDeclarationsCorrected(root: Element) returns (r: Option<RecordList>)
    ensures r.None? <==> root.children == []
    ensures r.Some? ==> r.value.name == "declarations" && |r.value.records| == |root.children|
    ensures r.Some? ==> forall i :: 0 <= i < |root.children| ==> r.value.records[i] == RecordOf(root.children[i])
  {
    var declarations := CollectRecords(root.children);
    if |declarations| > 0 {
      r := Some(RecordList("declarations", declarations));
    } else {
      r := None;
    }
  }

  /**
   * An event with at least one field: as written its declaration is empty,
   * while the intended declaration holds every one of its field tags.
   */
  lemma EventFieldsLost(event: Element)
    requires |event.children| > 0
    ensures RecordOf(event) != []
    ensures forall k :: k in Tags(event.children) ==> k in Keys(RecordOf(event))
  {
    RecordKeys(event);
  }
}
