/**
 * The closures walker `Closures_Feed.get_geojson` (ChartTools.py lines
 * 107-149). The top-level elements are closure-type groups, each holding
 * closure records. As written, the geometry step and the append (lines
 * 138-145) sit after the inner loop, at group level: one feature per group,
 * built from the group's last closure. `GetGeoJsonCorrected` is the
 * one-feature-per-closure walk the code evidently intended.
 */
module ClosuresFeed {
  import opened Wrappers
  import opened PyDict
  import opened Xml
  import opened GeoJson
  import IncidentsFeed

  /**
   * The closure whose properties the name `feature` holds once the given
   * groups are read: the last closure of the last non-empty group, or `None`
   * while the name is still unbound.
   */
  function LastClosure(groups: seq<Element>): Option<Element>
  {
    if groups == [] then None
    else
      var group := groups[|groups| - 1];
      if |group.children| > 0 then Some(group.children[|group.children| - 1])
      else LastClosure(groups[..|groups| - 1])
  }

  /** The properties dict bound to `feature` once the given groups are read. */
  function BoundProperties(groups: seq<Element>): Option<Properties>
  {
    match LastClosure(groups)
    case None => None
    case Some(closure) => Some(PropertiesOf(LanesAware, closure))
  }

  /**
   * Lines 139-140: the geometry step on whatever `feature` is bound to; an
   * unbound name raises `UnboundLocalError`.
   */
  function GeometryStep(feature: Option<Properties>): Result<Feature>
  {
    match feature
    case None => Err(UnboundLocalError("feature"))
    case Some(properties) => MakeFeature(properties)
  }

  /** The geometry step after the last of `groupsSoFar`. */
  function GroupOutcome(groupsSoFar: seq<Element>): Result<Feature>
  {
    GeometryStep(BoundProperties(groupsSoFar))
  }

  /** `f` applied to each non-empty prefix of `xs`, shortest first. */
  function AfterEach<X, T>(xs: seq<X>, f: seq<X> -> T): seq<T>
  {
    seq(|xs|, i requires 0 <= i < |xs| => f(xs[..i + 1]))
  }

  /** The outcome of the geometry step after each group, in document order. */
  function GroupResults(groups: seq<Element>): seq<Result<Feature>>
  {
    AfterEach(groups, GroupOutcome)
  }

  /** What the closures walker returns as written, or the error that aborts it. */
  function WalkAsWritten(groups: seq<Element>): Result<Option<FeatureCollection>>
  {
    match Sequence(GroupResults(groups))
    case Err(e) => Err(e)
    case Ok(features) => Ok(Collect(features))
  }

  /** After group `i`, `feature` is bound to its last closure, or unchanged when it has none. */
  lemma BoundAfterGroup(groups: seq<Element>, i: nat)
    requires i < |groups|
    ensures BoundProperties(groups[..i + 1]) ==
              if |groups[i].children| > 0 then Some(PropertiesOf(LanesAware, groups[i].children[|groups[i].children| - 1]))
              else BoundProperties(groups[..i])
  {
    assert groups[..i + 1][..i] == groups[..i];
  }

  /** Taking one more item adds `f` of the longer prefix. */
  lemma AfterEachStep<X, T>(xs: seq<X>, i: nat, f: seq<X> -> T)
    requires i < |xs|
    ensures AfterEach(xs[..i + 1], f) == AfterEach(xs[..i], f) + [f(xs[..i + 1])]
  {
    forall k | 0 <= k < i ensures AfterEach(xs[..i + 1], f)[k] == AfterEach(xs[..i], f)[k] {
      assert xs[..i + 1][..k + 1] == xs[..i][..k + 1];
    }
    assert xs[..i + 1][..i + 1] == xs[..i + 1];
  }

  /** `f` after each item of a prefix is a prefix of `f` after each item. */
  lemma AfterEachPrefix<X, T>(xs: seq<X>, k: nat, f: seq<X> -> T)
    requires k <= |xs|
    ensures AfterEach(xs, f)[..k] == AfterEach(xs[..k], f)
  {
    forall m | 0 <= m < k ensures AfterEach(xs, f)[m] == AfterEach(xs[..k], f)[m] {
      assert xs[..k][..m + 1] == xs[..m + 1];
    }
  }

  /** Once the walk over the first groups has failed, the whole walk fails with that error. */
  lemma GroupFailureAborts(groups: seq<Element>, k: nat)
    requires k <= |groups|
    requires Sequence(GroupResults(groups[..k])).Err?
    ensures Sequence(GroupResults(groups)) == Sequence(GroupResults(groups[..k]))
  {
    AfterEachPrefix(groups, k, GroupOutcome);
    PrefixErrorStands(GroupResults(groups), k);
  }

  /** One more group adds the outcome of the geometry step after it, or aborts the walk with its error. */
  lemma StepGroups(groups: seq<Element>, i: nat, features: seq<Feature>, before: Option<Properties>, after: Option<Properties>)
    requires i < |groups|
    requires Sequence(GroupResults(groups[..i])) == Ok(features)
    requires before == BoundProperties(groups[..i])
    requires |groups[i].children| == 0 ==> after == before
    requires |groups[i].children| > 0 ==>
               after == Some(PropertiesOf(LanesAware, groups[i].children[|groups[i].children| - 1]))
    ensures after == BoundProperties(groups[..i + 1])
    ensures var outcome := GeometryStep(after);
            && (outcome.Err? ==> WalkAsWritten(groups) == Err(outcome.error))
            && (outcome.Ok? ==> Sequence(GroupResults(groups[..i + 1])) == Ok(features + [outcome.value]))
  {
    BoundAfterGroup(groups, i);
    AfterEachStep(groups, i, GroupOutcome);
    SequenceStep(GroupResults(groups[..i]), GroupOutcome(groups[..i + 1]));
    if GroupOutcome(groups[..i + 1]).Err? {
      GroupFailureAborts(groups, i + 1);
    }
  }

  /** A walk over all the groups that returned normally yields the collection of its features. */
  lemma AllGroupsWalked(groups: seq<Element>, features: seq<Feature>)
    requires Sequence(GroupResults(groups)) == Ok(features)
    ensures WalkAsWritten(groups) == Ok(Collect(features))
  {
  }

  /**
   * Lines 121-136: each closure of the group is read into a new dict that
   * `feature` is rebound to, so only the last one survives the loop.
   */
  method ReadGroup(closureTypes: Element, feature: Option<Properties>) returns (bound: Option<Properties>)
    ensures |closureTypes.children| == 0 ==> bound == feature
    ensures |closureTypes.children| > 0 ==>
              bound == Some(PropertiesOf(LanesAware, closureTypes.children[|closureTypes.children| - 1]))
  {
    bound := feature;
    for j := 0 to |closureTypes.children|
      invariant bound == if j == 0 then feature else Some(PropertiesOf(LanesAware, closureTypes.children[j - 1]))
    {
      var properties := IncidentsFeed.ReadAttributes(closureTypes.children[j]);
      bound := Some(properties);
    }
  }

  /**
   * Lines 112-149, after the fetch and the parse, as written: the inner loop
   * rebinds `feature` once per closure, and the geometry step and the append
   * run once per group.
   */
  method GetGeoJson(root: Element) returns (r: Result<Option<FeatureCollection>>)
    ensures r == WalkAsWritten(root.children)
  {
    var closures := root.children;
    var features: seq<Feature> := [];
    var featureCount := 0;
    // the properties of the dict bound to `feature`; `None` while the name is unbound
    var feature: Option<Properties> := None;
    for i := 0 to |closures|
      invariant Sequence(GroupResults(closures[..i])) == Ok(features)
      invariant featureCount == |features|
      invariant feature == BoundProperties(closures[..i])
    {
      var before := feature;
      feature := ReadGroup(closures[i], feature);
      StepGroups(closures, i, features, before, feature);
      var made := GeometryStep(feature);
      if made.Err? {
        return Err(made.error);
      }
      features := features + [made.value];
      featureCount := featureCount + 1;
    }
    assert closures[..|closures|] == closures;
    AllGroupsWalked(closures, features);
    if featureCount > 0 {
      r := Ok(Some(FeatureCollection("FeatureCollection", featureCount, features)));
    } else {
      r := Ok(None);
    }
  }

  /**
   * As written, the walk appends exactly one feature per closure-type group,
   * however many closures the group holds: `featureCount` is the number of
   * groups, and no groups means `None`.
   */
  lemma OneFeaturePerGroup(groups: seq<Element>)
    ensures WalkAsWritten(groups) == Ok(None) <==> groups == []
    ensures WalkAsWritten(groups).Ok? && WalkAsWritten(groups).value.Some? ==>
              var fc := WalkAsWritten(groups).value.value;
              fc.kind == "FeatureCollection" && fc.featureCount == |fc.features| == |groups| > 0
  {
  }

  /** The feature appended after group `i` is the outcome of the geometry step there. */
  lemma AsWrittenFeatureAt(groups: seq<Element>, i: nat)
    requires i < |groups|
    requires WalkAsWritten(groups).Ok?
    ensures WalkAsWritten(groups).value.Some?
    ensures |WalkAsWritten(groups).value.value.features| == |groups|
    ensures GeometryStep(BoundProperties(groups[..i + 1])) == Ok(WalkAsWritten(groups).value.value.features[i])
  {
    var features := Sequence(GroupResults(groups)).value;
    assert GroupResults(groups)[i] == GroupOutcome(groups[..i + 1]) == Ok(features[i]);
  }

  /**
   * As written, the feature appended for a non-empty group holds the
   * properties of its last closure only, every earlier closure of the group
   * being read and then discarded; its point is that closure's longitude and
   * latitude, in that order.
   */
  lemma LastClosureOfGroupWins(groups: seq<Element>, i: nat)
    requires i < |groups| && |groups[i].children| > 0
    requires WalkAsWritten(groups).Ok?
    ensures WalkAsWritten(groups).value.Some?
    ensures var closures := groups[i].children;
            var f := WalkAsWritten(groups).value.value.features[i];
            var p := PropertiesOf(LanesAware, closures[|closures| - 1]);
            && f.kind == "Feature"
            && f.properties == p
            && f.geometry.kind == "Point"
            && |f.geometry.coordinates| == 2
            && Get(p, "longitude") == Some(f.geometry.coordinates[0])
            && Get(p, "latitude") == Some(f.geometry.coordinates[1])
  {
    AsWrittenFeatureAt(groups, i);
    BoundAfterGroup(groups, i);
  }

  /** As written, a group without closures appends the previous group's feature again. */
  lemma EmptyGroupRepeatsPrevious(groups: seq<Element>, i: nat)
    requires 0 < i < |groups| && groups[i].children == []
    requires WalkAsWritten(groups).Ok?
    ensures WalkAsWritten(groups).value.Some?
    ensures var features := WalkAsWritten(groups).value.value.features;
            features[i] == features[i - 1]
  {
    AsWrittenFeatureAt(groups, i);
    AsWrittenFeatureAt(groups, i - 1);
    BoundAfterGroup(groups, i);
  }

  /** As written, a first group without closures reaches the geometry step with `feature` unbound. */
  lemma EmptyFirstGroupFails(groups: seq<Element>)
    requires |groups| > 0 && groups[0].children == []
    ensures WalkAsWritten(groups) == Err(UnboundLocalError("feature"))
  {
    BoundAfterGroup(groups, 0);
    assert groups[..0] == [];
    assert GroupResults(groups)[0] == GroupOutcome(groups[..1]) == Err(UnboundLocalError("feature"));
    FirstErrorReported(GroupResults(groups), 0);
  }

  /** The closures of all groups, group by group, in document order. */
  function Flatten(groups: seq<Element>): (closures: seq<Element>)
    ensures |closures| == TotalClosures(groups)
  {
    if groups == [] then []
    else Flatten(groups[..|groups| - 1]) + groups[|groups| - 1].children
  }

  /** The number of closures over all groups. */
  function TotalClosures(groups: seq<Element>): nat
  {
    if groups == [] then 0
    else TotalClosures(groups[..|groups| - 1]) + |groups[|groups| - 1].children|
  }

  /** The closures of the first groups come first. */
  lemma {:induction false} FlattenPrefix(groups: seq<Element>, k: nat)
    requires k <= |groups|
    ensures |Flatten(groups[..k])| <= |Flatten(groups)|
    ensures Flatten(groups)[..|Flatten(groups[..k])|] == Flatten(groups[..k])
  {
    if k == |groups| {
      assert groups[..k] == groups;
    } else {
      var n := |groups| - 1;
      assert groups[..n][..k] == groups[..k];
      FlattenPrefix(groups[..n], k);
    }
  }

  /** The closures of the groups before group `i`, then those of group `i`. */
  lemma FlattenStep(groups: seq<Element>, i: nat)
    requires i < |groups|
    ensures Flatten(groups[..i + 1]) == Flatten(groups[..i]) + groups[i].children
  {
    assert groups[..i + 1][..i] == groups[..i];
  }

  /** The closures before closure `j` of group `i` are a prefix of all the closures. */
  lemma ClosuresSoFarArePrefix(groups: seq<Element>, i: nat, j: nat)
    requires i < |groups| && j <= |groups[i].children|
    ensures var done := Flatten(groups[..i]) + groups[i].children[..j];
            |done| <= |Flatten(groups)| && Flatten(groups)[..|done|] == done
  {
    var done := Flatten(groups[..i]) + groups[i].children[..j];
    FlattenStep(groups, i);
    FlattenPrefix(groups, i + 1);
    assert Flatten(groups[..i + 1])[..|done|] == done;
  }

  /**
   * Corrected walk: one more closure adds its feature, or aborts the walk over
   * all groups with its error.
   */
  lemma StepClosure(groups: seq<Element>, i: nat, j: nat, features: seq<Feature>)
    requires i < |groups| && j < |groups[i].children|
    requires FeaturesOf(LanesAware, Flatten(groups[..i]) + groups[i].children[..j]) == Ok(features)
    ensures var outcome := FeatureOf(LanesAware, groups[i].children[j]);
            && (outcome.Err? ==> FeaturesOf(LanesAware, Flatten(groups)) == Err(outcome.error))
            && (outcome.Ok? ==>
                  FeaturesOf(LanesAware, Flatten(groups[..i]) + groups[i].children[..j + 1]) == Ok(features + [outcome.value]))
  {
    var before := Flatten(groups[..i]) + groups[i].children[..j];
    var closure := groups[i].children[j];
    var done := Flatten(groups[..i]) + groups[i].children[..j + 1];
    assert done == before + [closure] by {
      assert groups[i].children[..j + 1] == groups[i].children[..j] + [closure];
    }
    StepAppend(LanesAware, before, closure, features);
    if FeatureOf(LanesAware, closure).Err? {
      ClosuresSoFarArePrefix(groups, i, j + 1);
      PrefixFailureAborts(LanesAware, Flatten(groups), |done|);
    }
  }

  /**
   * The walk the closures walker evidently intended: the geometry step and the
   * append inside the inner loop, one feature per closure in document order.
   */
  method GetGeoJsonCorrected(root: Element) returns (r: Result<Option<FeatureCollection>>)
    ensures r == Walk(LanesAware, Flatten(root.children))
  {
    var closures := root.children;
    var features: seq<Feature> := [];
    var featureCount := 0;
    for i := 0 to |closures|
      invariant FeaturesOf(LanesAware, Flatten(closures[..i])) == Ok(features)
      invariant featureCount == |features|
    {
      var closureTypes := closures[i];
      assert closureTypes.children[..0] == [];
      assert Flatten(closures[..i]) + closureTypes.children[..0] == Flatten(closures[..i]);
      for j := 0 to |closureTypes.children|
        invariant FeaturesOf(LanesAware, Flatten(closures[..i]) + closureTypes.children[..j]) == Ok(features)
        invariant featureCount == |features|
      {
        var properties := IncidentsFeed.ReadAttributes(closureTypes.children[j]);
        var feature := MakeFeature(properties);
        StepClosure(closures, i, j, features);
        if feature.Err? {
          return Err(feature.error);
        }
        features := features + [feature.value];
        featureCount := featureCount + 1;
      }
      assert closureTypes.children[..|closureTypes.children|] == closureTypes.children;
      FlattenStep(closures, i);
    }
    assert closures[..|closures|] == closures;
    if featureCount > 0 {
      r := Ok(Some(FeatureCollection("FeatureCollection", featureCount, features)));
    } else {
      r := Ok(None);
    }
  }

  /** Corrected, the walk appends one feature per closure over all groups. */
  lemma OneFeaturePerClosure(groups: seq<Element>)
    ensures Walk(LanesAware, Flatten(groups)) == Ok(None) <==> TotalClosures(groups) == 0
    ensures Walk(LanesAware, Flatten(groups)).Ok? && Walk(LanesAware, Flatten(groups)).value.Some? ==>
              Walk(LanesAware, Flatten(groups)).value.value.featureCount == TotalClosures(groups)
  {
    WalkCount(LanesAware, Flatten(groups));
  }

  /** A closure with an id and both coordinates. */
  function ExampleClosure(id: string): Element
  {
    Element("closure", None, [
      Element("id", Some(id), []),
      Element("longitude", Some("-76.6"), []),
      Element("latitude", Some("39.3"), [])])
  }

  /** Two closure-type groups, holding two and three closures. */
  const ExampleGroups := [
    Element("closureType", None, [ExampleClosure("1"), ExampleClosure("2")]),
    Element("closureType", None, [ExampleClosure("3"), ExampleClosure("4"), ExampleClosure("5")])]

  /** Every example closure has a longitude and a latitude. */
  lemma ExampleClosureLocated(shape: Shape, id: string)
    ensures FeatureOf(shape, ExampleClosure(id)).Ok?
  {
    assert Tags(ExampleClosure(id).children) == ["id", "longitude", "latitude"];
    CoordinatesPresent(shape, ExampleClosure(id));
  }

  /**
   * Two groups holding two and three closures: as written the walk returns
   * two features, where one per closure gives five.
   */
  lemma TwoGroupsFiveClosures()
    ensures WalkAsWritten(ExampleGroups).Ok? && WalkAsWritten(ExampleGroups).value.Some?
    ensures WalkAsWritten(ExampleGroups).value.value.featureCount == 2
    ensures Walk(LanesAware, Flatten(ExampleGroups)).Ok? && Walk(LanesAware, Flatten(ExampleGroups)).value.Some?
    ensures Walk(LanesAware, Flatten(ExampleGroups)).value.value.featureCount == 5
  {
    var groups := ExampleGroups;
    forall k | 0 <= k < 2 ensures GroupResults(groups)[k].Ok? {
      BoundAfterGroup(groups, k);
      assert GroupResults(groups)[k] == GroupOutcome(groups[..k + 1]);
      ExampleClosureLocated(LanesAware, if k == 0 then "2" else "5");
    }
    FlattenStep(groups, 0);
    FlattenStep(groups, 1);
    assert groups[..0] == [] && groups[..2] == groups;
    var closures := Flatten(groups);
    assert closures == [ExampleClosure("1"), ExampleClosure("2"), ExampleClosure("3"), ExampleClosure("4"), ExampleClosure("5")];
    forall k | 0 <= k < 5 ensures FeatureResults(LanesAware, closures)[k].Ok? {
      ExampleClosureLocated(LanesAware, closures[k].children[0].text.value);
    }
    WalkCount(LanesAware, closures);
  }
}
