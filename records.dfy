/**
 * Flat records: an element turned into `{child.tag: child.text for child in element}`.
 * This is how a lane is read (ChartTools.py lines 73-75 and 131-133) and how the
 * tabular feeds were meant to read a restriction or a declaration.
 */
module Records {
  import opened Wrappers
  import opened PyDict
  import opened Xml

  /** One flat record: field tag to field text. */
  type Record = Dict<Option<string>>

  /** A named list of records: `{'restrictions': [...]}` or `{'declarations': [...]}`. */
  datatype RecordList = RecordList(name: string, records: seq<Record>)

  /** The (tag, text) pairs of `nodes`, in document order. */
  function TextPairs(nodes: seq<Element>): seq<(string, Option<string>)>
  {
    seq(|nodes|, i requires 0 <= i < |nodes| => (nodes[i].tag, nodes[i].text))
  }

  /** The record read from `node`: each child's tag assigned its text, in document order. */
  function RecordOf(node: Element): Record
  {
    FromPairs(TextPairs(node.children))
  }

  /** One record per node, in document order. */
  function RecordsOf(nodes: seq<Element>): seq<Record>
  {
    seq(|nodes|, i requires 0 <= i < |nodes| => RecordOf(nodes[i]))
  }

  /** Reads one record field by field into a fresh dict. */
  method ReadRecord(node: Element) returns (record: Record)
    ensures record == RecordOf(node)
    ensures forall k :: k in Keys(record) <==> k in Tags(node.children)
  {
    record := [];
    for j := 0 to |node.children|
      invariant record == FromPairs(TextPairs(node.children[..j]))
    {
      var field := node.children[j];
      assert TextPairs(node.children[..j + 1])[..j] == TextPairs(node.children[..j]);
      record := Put(record, field.tag, field.text);
    }
    assert node.children[..|node.children|] == node.children;
    assert Keys(TextPairs(node.children)) == Tags(node.children);
    FromPairsKeys(TextPairs(node.children));
  }

  /** Reads each node into a record and collects the records in document order. */
  method CollectRecords(nodes: seq<Element>) returns (records: seq<Record>)
    ensures |records| == |nodes|
    ensures forall i :: 0 <= i < |nodes| ==> records[i] == RecordOf(nodes[i])
  {
    records := [];
    for i := 0 to |nodes|
      invariant |records| == i
      invariant forall k :: 0 <= k < i ==> records[k] == RecordOf(nodes[k])
    {
      var record := ReadRecord(nodes[i]);
      records := records + [record];
    }
  }

  /** A later field with the same tag overwrites an earlier one; any other field keeps its text. */
  lemma LastFieldWins(node: Element, i: nat)
    requires i < |node.children|
    requires forall j :: i < j < |node.children| ==> node.children[j].tag != node.children[i].tag
    ensures Get(RecordOf(node), node.children[i].tag) == Some(node.children[i].text)
  {
    var ps := TextPairs(node.children);
    LaterAssignmentWins(ps, i);
  }

  /** When the fields have distinct tags, the record holds exactly the (tag, text) pairs in document order. */
  lemma RecordMirrorsFields(node: Element)
    requires Distinct(Tags(node.children))
    ensures RecordOf(node) == TextPairs(node.children)
    ensures |RecordOf(node)| == |node.children|
  {
    assert Keys(TextPairs(node.children)) == Tags(node.children);
    DistinctPairsKept(TextPairs(node.children));
  }

  /** The record read from `node` has exactly the node's child tags as keys: no field is lost or invented. */
  lemma RecordKeys(node: Element)
    ensures forall k :: k in Keys(RecordOf(node)) <==> k in Tags(node.children)
    ensures |RecordOf(node)| == 0 <==> |node.children| == 0
  {
    assert Keys(TextPairs(node.children)) == Tags(node.children);
    FromPairsKeys(TextPairs(node.children));
    if |node.children| > 0 {
      assert Tags(node.children)[0] in Keys(RecordOf(node));
    }
  }
}
