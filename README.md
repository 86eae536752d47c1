# ChartTools feed normalizers, modelled in Dafny

ChartTools.py reads the XML feeds of Maryland's CHART traffic service and turns
them into plain Python structures. Geographic feeds become a GeoJSON-like
`FeatureCollection`: one `Feature` per record, its `properties` mapping every
attribute tag to the attribute's text, and a `Point` geometry whose coordinates
are `[longitude, latitude]`. Tabular feeds become a named list of flat
tag-to-text records. When there is nothing to return, the result is `None`.

This project models the part of each feed reader that walks the parsed XML
document. The network fetch and the XML parse come before it and are not
modelled: every walker takes the parsed root `Element` as its input.

- `Xml.Element` is a parsed XML element, with its tag, its text (`None` when
  the element has none) and its children.
- `PyDict` models a Python `dict` with string keys. It is a sequence of
  entries in insertion order. Assigning an existing key overwrites that
  entry's value in place; assigning a new key adds it at the end.
- `Wrappers.Result` stands for "returns normally, or raises". `PyError` names
  the three exceptions that can occur here: `KeyError`, `UnboundLocalError`
  and `TypeError`. `Wrappers.Sequence` stands for a loop that stops at the
  first exception.
- `GeoJson` holds the output types and the specification functions:
  - `PropertiesOf` is the properties of one record.
  - `MakeFeature` is the geometry step.
  - `Walk` is the whole walk.
  - `Shape` says whether a `lanes` attribute is read as a list of lane
    records (`LanesAware`, for incidents and closures) or as text
    (`Scalar`, for the generic walker).
- Each walker is an imperative method whose loops mirror the source's loops.
  A geographic walker is proved equal to its specification function, and the
  properties the source promises are proved as lemmas about those functions.
  A tabular reader has its result stated directly in its ensures.

Where the code and its documentation disagree, the model follows the code:

- Coordinates stay the raw attribute texts; they are never converted to
  numbers.
- A record without a longitude or latitude raises `KeyError`. It is not
  skipped and is not reported as a structured error.
- The closures walker appends one feature per closure-type group, not one
  per closure.
- The restrictions reader always raises `TypeError`.
- Every snow-emergency declaration comes out empty.

The last three are listed under "## Findings". For each of them the model has
an as-written member and a corrected member.

## Model

| member | source | states |
|---|---|---|
| Wrappers.Sequence | ChartTools.py:23-36 | a record loop returns normally exactly when every step does, and then yields every step's value in document order |
| Wrappers.FirstErrorReported | ChartTools.py:23-36 | the exception that escapes the loop is the one raised by the first failing step |
| Wrappers.PrefixErrorStands | ChartTools.py:23-36 | once a step has raised, the later records change nothing about the outcome |
| PyDict.Get | ChartTools.py:30-31 | a lookup finds nothing exactly when the key was never assigned |
| PyDict.Put | ChartTools.py:27 | after `d[k] = v`, `k` maps to `v`; an existing key keeps its position, and a new key is added last |
| PyDict.PutKeepsOthers | ChartTools.py:27 | `d[k] = v` leaves the value of every other key unchanged |
| PyDict.FromPairsKeys | ChartTools.py:26-27 | the dict built by the attribute loop holds each key once, and its keys are exactly the keys assigned |
| PyDict.LaterAssignmentWins | ChartTools.py:26-27 | a key that is assigned again later keeps only its last value |
| PyDict.NeverAssignedIsAbsent | ChartTools.py:26-27 | a key that was never assigned is absent from the dict |
| PyDict.DistinctPairsKept | ChartTools.py:26-27 | with distinct keys, the dict holds exactly the assignments, in the order they were made |
| PyDict.EntryIsFound | ChartTools.py:30-31 | in a dict, each entry's value is what a lookup of its key returns |
| PyDict.FoundIsEntry | ChartTools.py:30-31 | a value a lookup returns is an entry of the dict |
| PyDict.EntriesWereAssigned | ChartTools.py:26-27 | every entry of the built dict is one of the assignments made; nothing is invented |
| Records.ReadRecord | ChartTools.py:73-75 | the loop builds the tag-to-text record of the node, and its keys are exactly the node's child tags |
| Records.CollectRecords | ChartTools.py:70-76 | one record per child node, each that node's tag-to-text record, in document order |
| Records.LastFieldWins | ChartTools.py:74-75 | a field whose tag is not repeated later keeps its text; a repeated tag keeps only the last text |
| Records.RecordMirrorsFields | ChartTools.py:74-75 | when the field tags are distinct, the record is exactly the (tag, text) pairs in document order |
| Records.RecordKeys | ChartTools.py:74-75 | the record's keys are exactly the node's child tags, and the record is empty exactly when the node has no children |
| GeoJson.MakeFeature | ChartTools.py:29-31 | the geometry step succeeds exactly when both keys are present. Its point is `[longitude, latitude]`, in that order. When a key is missing it raises `KeyError`, naming longitude first |
| GeoJson.SingleRecordWalk | ChartTools.py:23-40 | a one-record walk whose geometry step succeeds returns a collection with exactly that feature and `featureCount` 1 |
| GeoJson.StepFeatures | ChartTools.py:23-36 | the walk through one more record appends that record's feature, or raises its error; in the error case the whole walk over all records raises that same error |
| GeoJson.StepAppend | ChartTools.py:23-36 | appending a record to a successful walk appends its feature, or makes the walk raise its error |
| GeoJson.PrefixFailureAborts | ChartTools.py:23-36 | once a record has raised, the whole walk raises that same error |
| GeoJson.WalkCount | ChartTools.py:15-40 | the result is `None` exactly when there are no records. Otherwise it is a `FeatureCollection` whose `featureCount` equals the number of features and of records |
| GeoJson.FeatureAt | ChartTools.py:23-33 | the i-th feature comes from the i-th record: it carries that record's properties and a `Point` at `[longitude, latitude]` |
| GeoJson.MissingCoordinateAborts | ChartTools.py:30-31 | the first record that lacks a coordinate makes the walk raise `KeyError`, checking longitude before latitude; no record is dropped |
| GeoJson.CoordinatesPresent | ChartTools.py:30-31 | a record's geometry step succeeds exactly when it has both a longitude and a latitude attribute |
| GeoJson.CoordinatesPresentSucceeds | ChartTools.py:23-40 | a walk over records that all have both coordinates returns normally |
| GeoJson.AttributeStored | ChartTools.py:65-78 | an attribute not repeated later keeps its value in the properties: text, or a list of lane records under `lanes` |
| Chart.ReadAttributes | ChartTools.py:26-27 | the attribute loop builds the record's properties, every attribute stored as text |
| Chart.GetGeoJson | ChartTools.py:15-40 | the generic walker returns the specified walk: features in document order, `featureCount` equal to their number, `None` when empty, or the first `KeyError` |
| Chart.ScalarAttributeStored | ChartTools.py:26-27 | in the generic walker every attribute is stored as its text, and the last occurrence of a repeated tag wins |
| Chart.ScalarPropertiesMirrorAttributes | ChartTools.py:26-27 | with distinct tags, the properties are the attributes' (tag, text) pairs, in document order |
| IncidentsFeed.ReadAttributes | ChartTools.py:65-78 | attributes are stored as text, except that `lanes` becomes a list of lane records |
| IncidentsFeed.GetGeoJson | ChartTools.py:54-91 | the incidents walker returns the specified lane-aware walk |
| IncidentsFeed.ScalarAttributeStored | ChartTools.py:66-67 | an attribute not tagged `lanes` is stored as its text |
| IncidentsFeed.LanesStored | ChartTools.py:68-78 | `lanes` holds one record per lane child, in document order, each the lane's tag-to-text record |
| IncidentsFeed.OnlyLanesIsAList | ChartTools.py:65-78 | every property other than `lanes` holds text |
| IncidentsFeed.ExamplePropertiesRead | ChartTools.py:65-78 | the example incident's properties are its id, longitude, latitude and a one-lane list, in that order |
| IncidentsFeed.OneIncidentExample | ChartTools.py:54-91 | the one-incident document yields exactly one feature: the properties in document order and the coordinates `["-76.6", "39.3"]` |
| ClosuresFeed.BoundAfterGroup | ChartTools.py:121-136 | helper for the loop proofs, unfolding one group: after a group, `feature` holds the properties of that group's last closure; an empty group leaves it unchanged |
| ClosuresFeed.ReadGroup | ChartTools.py:121-136 | the inner loop leaves `feature` bound to the last closure's properties, or unchanged when the group is empty |
| ClosuresFeed.StepGroups | ChartTools.py:120-145 | each group appends the outcome of one geometry step on the current `feature`, or makes the walk raise |
| ClosuresFeed.AllGroupsWalked | ChartTools.py:147-149 | helper for the loop proof: once every group is walked, the result is the collection of the features, or `None` when there are none |
| ClosuresFeed.GetGeoJson | ChartTools.py:112-149 | the closures walker, as written, returns the group-level walk |
| ClosuresFeed.OneFeaturePerGroup | ChartTools.py:120-149 | as written, `featureCount` is the number of groups, whatever they hold, and no groups means `None` |
| ClosuresFeed.AsWrittenFeatureAt | ChartTools.py:138-142 | as written, the i-th feature is the geometry step on what `feature` holds after group i |
| ClosuresFeed.LastClosureOfGroupWins | ChartTools.py:121-142 | as written, a non-empty group's feature carries only its last closure's properties and point |
| ClosuresFeed.EmptyGroupRepeatsPrevious | ChartTools.py:138-142 | as written, an empty group appends the previous group's feature again |
| ClosuresFeed.EmptyFirstGroupFails | ChartTools.py:122-139 | as written, an empty first group makes the walk raise `UnboundLocalError` on `feature` |
| ClosuresFeed.ClosuresSoFarArePrefix | ChartTools.py:120-121 | the closures visited so far are a prefix of all the closures, group by group |
| ClosuresFeed.StepClosure | ChartTools.py:121-145 | corrected, each closure appends its own feature or makes the whole walk raise its error |
| ClosuresFeed.GetGeoJsonCorrected | ChartTools.py:120-145 | the corrected walker is the lane-aware walk over all closures of all groups, in document order |
| ClosuresFeed.OneFeaturePerClosure | ChartTools.py:120-149 | corrected, `featureCount` is the total number of closures, and no closures means `None` |
| ClosuresFeed.ExampleClosureLocated | ChartTools.py:139-140 | every example closure, whatever its id, passes the geometry step |
| ClosuresFeed.TwoGroupsFiveClosures | ChartTools.py:120-145 | two groups holding two and three closures: as written 2 features, corrected 5 |
| RestrictionsFeed.GetRestrictions | ChartTools.py:186-195 | as written, the reader always raises `TypeError`, with or without restrictions; the message is the one CPython's C-accelerated `Element` gives |
| RestrictionsFeed.GetRestrictionsCorrected | ChartTools.py:187-195 | corrected: one tag-to-text record per restriction, in document order, under `restrictions`, and `None` exactly when there are none |
| SnowEmergencyFeed.GetDeclarations | ChartTools.py:288-297 | as written: one empty declaration per event, under `declarations`, and `None` exactly when there are no events |
| SnowEmergencyFeed.GetDeclarationsCorrected | ChartTools.py:288-297 | corrected: one tag-to-text record per event, in document order, and `None` exactly when there are none |
| SnowEmergencyFeed.EventFieldsLost | ChartTools.py:290-292 | an event with fields has a non-empty intended record holding every field tag; the as-written declaration is empty by the ensures of `SnowEmergencyFeed.GetDeclarations` |

## Left out

- Fetching a feed with `urllib.request.urlopen(...).read()` (ChartTools.py:18-19, 57-58, 115-116, 179-183, 284-285) is network I/O and is not modelled.
- Parsing with `ET.fromstring` (ChartTools.py:22, 61, 119, 186, 288) belongs to the XML library. The walkers take the parsed root element instead, and the XML parser is not part of this model.
- Building filter URLs with `urllib.parse.urlencode` (ChartTools.py:181, 215, 236) is library query escaping. The optional `route_type` argument of the restrictions reader is not modelled for the same reason.
- The `service_url` constants and the dispatchers `get_sensors`, `get_msg_boards` and `get_cams` are configuration and plumbing. Each dispatcher returns the generic walk of its feed's document, which is `Chart.GetGeoJson`.
- `get_incidents` and `get_closures` (ChartTools.py:98, 156) call their walker and discard its result, so they return `None` unless the walk raises. They are plumbing around a fetch and are not modelled.
- The initial `[0, 0]` coordinates (ChartTools.py:24, 63, 122) are always overwritten before the feature is appended, so the model builds the point once. A failing lookup raises before anything is appended, so no half-built feature can escape.
- In the closures walker, the feature dict that an empty group appends again is the same Python object as the one already in the list. The model compares features by value, so this aliasing is not captured.
- Attribute texts are kept as strings. Coordinates are never converted to numbers, because the code does not convert them.
- The body of the loop at ChartTools.py:291-292 can never run, because `event` is an empty dict there. The as-written snow reader therefore has no inner loop.

## Findings

| source | as written | input that shows it | evidently intended | confidence | as-written member | corrected member |
|---|---|---|---|---|---|---|
| ChartTools.py:138-145 | the geometry step and the append sit after the inner loop, so they run once per closure-type group | two groups holding two and three closures give 2 features; an empty first group raises `UnboundLocalError` | one feature per closure, built inside the inner loop | high, not executed | ClosuresFeed.GetGeoJson (see ClosuresFeed.TwoGroupsFiveClosures) | ClosuresFeed.GetGeoJsonCorrected |
| ChartTools.py:186 | the parsed root is bound to `restrictions`, which replaces the result container from line 175, so `restrictions['restrictions']` indexes an Element with a string | any document: with one restriction line 191 raises `TypeError`; with none, line 193 does | the parsed root under another name, and the records collected into the container | high, not executed | RestrictionsFeed.GetRestrictions | RestrictionsFeed.GetRestrictionsCorrected |
| ChartTools.py:290 | `event = {}` rebinds the loop variable before the inner loop reads it, so every declaration is empty | one event holding one field gives `[{}]` instead of that field | a separate dict filled from the event's fields | high, not executed | SnowEmergencyFeed.GetDeclarations (see SnowEmergencyFeed.EventFieldsLost) | SnowEmergencyFeed.GetDeclarationsCorrected |
