/**
 * The restrictions walker `Restrictions_Feed.get_restrictions` (ChartTools.py
 * lines 165-195), from the parsed document on. Line 186 binds the parsed root
 * element to the same name `restrictions` that line 175 gave the result
 * container, so the later `restrictions['restrictions']` indexes an Element
 * with a string.
 */
module RestrictionsFeed {
  import opened Wrappers
  import opened Xml
  import opened Records

  /**
   * What CPython's C-accelerated `ElementTree.Element` raises when indexed
   * with anything but an integer; the pure-Python `Element` also raises
   * `TypeError`, with the list-index wording instead.
   */
  const ElementIndexError := TypeError("element indices must be integers")

  /**
   * Lines 186-195 as written: the first restriction's fields are read, then
   * the append at line 191 raises; with no restrictions the length check at
   * line 193 raises instead. The call never returns normally.
   */
  method GetRestrictions(root: Element) returns (r: Result<Option<RecordList>>)
    ensures r == Err(ElementIndexError)
  {
    // `restrictions` now names `root`, not the container built at line 175
    for i := 0 to |root.children| {
      var properties := ReadRecord(root.children[i]);
      // line 191: `restrictions['restrictions']` on an Element
      return Err(ElementIndexError);
    }
    // line 193: `restrictions['restrictions']` on an Element
    return Err(ElementIndexError);
  }

  /**
   * The walk lines 187-195 evidently intend: one flat tag-to-text record per
   * restriction, in document order, under the name `restrictions`, or `None`
   * when there are none.
   */
  method GetRestrictionsCorrected(root: Element) returns (r: Option<RecordList>)
    ensures r.None? <==> root.children == []
    ensures r.Some? ==> r.value.name == "restrictions" && |r.value.records| == |root.children|
    ensures r.Some? ==> forall i :: 0 <= i < |root.children| ==> r.value.records[i] == RecordOf(root.children[i])
  {
    var restrictions := CollectRecords(root.children);
    if |restrictions| > 0 {
      r := Some(RecordList("restrictions", restrictions));
    } else {
      r := None;
    }
  }
}
