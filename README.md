# Bounding box of a GeoJSON document

A Dafny model of `get_min_max_coordinates` in
`src/renderer/get_bounds_from_geojson.py`, the one piece of logic in this
repository: given a parsed GeoJSON document (RFC 7946), it returns the
minimum and maximum longitude and latitude over every position it visits,
or `None`.

The document is walked as follows. When the top-level object has a
`features` member, every feature whose `geometry` is present and not null is
walked, and any top-level `geometry` is ignored; otherwise a non-null
top-level `geometry` is walked; otherwise the result is `None`. A geometry
without a `coordinates` member is skipped. `Point` is one position,
`LineString` and `MultiPoint` one level of positions, `Polygon` and
`MultiLineString` two, `MultiPolygon` three (section 3.1 of RFC 7946); each
position is read as longitude then latitude (section 3.1.1), and further
components are ignored. `GeometryCollection` recurses over its
`coordinates` member, not over the `geometries` member that section 3.1.8 of
RFC 7946 prescribes, so a standard collection contributes nothing. Four
accumulators start at `+inf`/`-inf` and are narrowed with Python's `min`
and `max` at each position; if `min_lon` is still `+inf` at the end no
position was visited and the result is `None`. The box is not split at the
antimeridian (section 5 of RFC 7946 allows that; the code does not do it).

Layout:

- `wrappers.dfy` — `Option`.
- `geojson.dfy` (module `GeoJson`) — the parsed document (`Position`,
  `Geometry`, `Feature`, `Document`) and `Positions…` functions listing the
  positions the walker visits, in visiting order.
- `extent.dfy` (module `Extent`) — the accumulators with the two infinities
  as an extended real `Ext`, the one-position update `Visit`, its fold, the
  final `Report`, the reference definition `IsTightBox` and the lemmas about
  all of these.
- `bounds.dfy` (module `Bounds`) — the walker itself as two methods,
  `ExtractCoordinates` (the nested `_extract_coordinates`, with its one- to
  three-level loops and its recursion) and `GetMinMaxCoordinates`, each
  proved against the fold, and the document-level lemmas.

The variables that `_extract_coordinates` shares with its caller through
`nonlocal` are passed in and returned by `ExtractCoordinates`.

## Model

| member | source | states |
|---|---|---|
| `Bounds.GetMinMaxCoordinates` | src/renderer/get_bounds_from_geojson.py:14-85 | the walk's result is the fold of min/max over the document's visited positions; it is None exactly when no position is visited (including the no-`features`, no-`geometry` case); otherwise its box encloses every visited position, each side is attained by one, and min <= max on both axes |
| `Bounds.ExtractCoordinates` | src/renderer/get_bounds_from_geojson.py:27-65 | walking one geometry leaves the accumulators equal to the fold of the min/max update over that geometry's positions in visiting order, starting from the accumulators passed in |
| `Extent.Min` | src/renderer/get_bounds_from_geojson.py:35-38 | Python's `min` of an accumulator and a coordinate: one of the two, and below neither |
| `Extent.Max` | src/renderer/get_bounds_from_geojson.py:35-38 | Python's `max` of an accumulator and a coordinate: one of the two, and above neither |
| `Extent.Visit` | src/renderer/get_bounds_from_geojson.py:35-38 | the four updates at one position (repeated at lines 42-45, 50-53 and 59-62): each accumulator becomes either its old value or the position's longitude or latitude, and each minimum is no larger (each maximum no smaller) than both; from untouched or all-finite accumulators all four become finite and the box they hold encloses the position |
| `Extent.Report` | src/renderer/get_bounds_from_geojson.py:77-85 | the `min_lon == inf` test and the returned dictionary: None exactly when the accumulators are still at their start values, otherwise the box whose sides are the four accumulators |
| `Extent.Fold` | src/renderer/get_bounds_from_geojson.py:14-62 | starting from the infinities, after at least one position all four accumulators are finite, and they are never half-updated; so testing `min_lon` alone decides whether anything was visited |
| `Extent.NoneIffNothingVisited` | src/renderer/get_bounds_from_geojson.py:77-78 | the result is None if and only if no position was visited |
| `Extent.BoxOfIsTight` | src/renderer/get_bounds_from_geojson.py:33-62 | for a non-empty visit sequence the result is a box that encloses every visited position, and each of its four sides equals the matching coordinate of some visited position |
| `Extent.TightVisit` | src/renderer/get_bounds_from_geojson.py:35-38 | one min/max update at a new position turns a tight box of the positions so far into a tight box of those positions plus the new one |
| `Extent.TightBoxUnique` | src/renderer/get_bounds_from_geojson.py:80-85 | a box that encloses a set of positions with every side attained is unique, so the returned dictionary is determined by the visited positions |
| `Extent.BoxIsOrdered` | src/renderer/get_bounds_from_geojson.py:80-85 | a returned box has `min_lon <= max_lon` and `min_lat <= max_lat` |
| `Extent.FoldAppend` | src/renderer/get_bounds_from_geojson.py:67-70 | accumulating over two position sequences one after the other equals accumulating over their concatenation |
| `Extent.Merge` | src/renderer/get_bounds_from_geojson.py:67-70 | reference definition (the source never merges boxes) behind `BoxOfAppend` and `BoundsMergeFeatureBounds`: an absent box adds nothing, the merge of two present boxes is no smaller than either, and it is None only when both are |
| `Extent.BoxOfAppend` | src/renderer/get_bounds_from_geojson.py:67-70 | the box of two position sequences walked one after the other is the merge of their separate boxes |
| `Extent.OnlyLonLatRead` | src/renderer/get_bounds_from_geojson.py:34 | two visit sequences that agree on every longitude and latitude leave the same accumulators: altitude and further components are never read |
| `Extent.BoxOfDependsOnlyOnVisitedSet` | src/renderer/get_bounds_from_geojson.py:35-38 | the result depends only on which positions were visited, not on their order or repetition |
| `GeoJson.VisitedAtTypeDepth` | src/renderer/get_bounds_from_geojson.py:33-62 | a position is visited exactly when it sits at the depth fixed for the geometry's type (one position, one, two or three levels); a geometry without `coordinates` or with an unrecognised type visits nothing |
| `Bounds.NoGeometryNoBounds` | src/renderer/get_bounds_from_geojson.py:67-78 | a document with neither `features` nor a non-null `geometry`, or with an empty feature list, yields None |
| `Bounds.FeaturesShadowGeometry` | src/renderer/get_bounds_from_geojson.py:67-72 | when `features` is present, the top-level `geometry` does not affect the result |
| `Bounds.EmptyFeatureIgnored` | src/renderer/get_bounds_from_geojson.py:69-70 | a feature whose geometry is absent, null or without coordinates can be removed from anywhere in the list without changing the result |
| `Bounds.BoundsMergeFeatureBounds` | src/renderer/get_bounds_from_geojson.py:67-70 | walking the features in order gives the same box as merging the boxes of the features taken one at a time |
| `Bounds.CollectionBounds` | src/renderer/get_bounds_from_geojson.py:63-65 | a GeometryCollection is walked through its `coordinates` member only: its `geometries` member never changes the visited positions wherever the collection stands, and a standard collection (no `coordinates`) yields None |

## Left out

- File reading and JSON parsing (`open`, `json.load`), their `FileNotFoundError` and `JSONDecodeError` handlers that print and return None, the diagnostic `print`, and the module-level call with its hard-coded path: the model takes the already-parsed document as its input.
- Input that does not have the JSON shape RFC 7946 gives each member; the `GeoJson` datatypes cannot express it. Depending on its shape, such input makes the source raise (IndexError, KeyError or TypeError) or is silently skipped. Non-exhaustive examples: a position with fewer than two elements raises IndexError (also a one-character or empty string in a LineString); a geometry with `coordinates` but no `type` raises KeyError; a null `features` member raises TypeError; a `features` member that is an object or a string is walked over its keys or characters, those not containing the substring `geometry` being skipped and one containing it raising TypeError; the members of a GeometryCollection's `coordinates` that are arrays or strings are skipped (the `'coordinates' in` test is a list-membership or substring test) unless they contain `coordinates`, and a string `coordinates` is walked character by character and skipped the same way; JSON `true`/`false` as coordinates are Python integers and are compared like 1 and 0.
- Floating point: coordinates are exact reals. NaN, a coordinate that is itself infinite (an infinite `min_lon` would be mistaken for "nothing visited") and rounding are not modelled; only the two infinities used as start values are, as `Ext`.
- Members other than `features`, `geometry`, `type` and `coordinates` are not represented; the walker never reads them. The one exception is the `geometries` member of a GeometryCollection, carried only so that `CollectionBounds` can show it is never read. A bare geometry object as the whole document has neither `features` nor `geometry` and is modelled as `Document(None, None)`.
- `types/map.d.ts` and `types/view.d.ts` are declarations without bodies (map classes, popups, markers, the host view); there is no behaviour in them to model.
