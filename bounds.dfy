/** get_min_max_coordinates and its nested _extract_coordinates: an
    imperative walk over an already-parsed GeoJSON document that folds
    min/max over every visited position. */
module Bounds {
  import opened Wrappers
  import opened GeoJson
  import opened Extent

  /** What get_min_max_coordinates returns for a document. */
  function DocumentBounds(d: Document): Option<Box>
  {
    BoxOf(PositionsOfDocument(d))
  }

  /** _extract_coordinates: visits the positions of one geometry, updating the
      four accumulators; `acc` and `r` are their values before and after, as
      the nested function shares them with its caller through `nonlocal`. */
  method ExtractCoordinates(g: Geometry, acc: Accumulators) returns (r: Accumulators)
    ensures r == Fold(acc, Positions(g))
    decreases g
  {
    r := acc;
    if g.Point? {
      r := Visit(r, g.position);
      assert Fold(acc, [g.position]) == Visit(Fold(acc, []), g.position);
    } else if g.LineString? || g.MultiPoint? {
      var coords := g.positions;
      var i := 0;
      while i < |coords|
        invariant 0 <= i <= |coords|
        invariant r == Fold(acc, coords[..i])
      {
        r := Visit(r, coords[i]);
        assert coords[..i + 1][..i] == coords[..i];
        i := i + 1;
      }
      assert coords[..i] == coords;
    } else if g.Polygon? || g.MultiLineString? {
      var coords := if g.Polygon? then g.rings else g.lines;
      var i := 0;
      while i < |coords|
        invariant 0 <= i <= |coords|
        invariant r == Fold(acc, Flatten(coords[..i]))
      {
        var ringOrLine := coords[i];
        ghost var before := r;
        var j := 0;
        while j < |ringOrLine|
          invariant 0 <= j <= |ringOrLine|
          invariant r == Fold(before, ringOrLine[..j])
        {
          r := Visit(r, ringOrLine[j]);
          assert ringOrLine[..j + 1][..j] == ringOrLine[..j];
          j := j + 1;
        }
        assert ringOrLine[..j] == ringOrLine;
        FoldAppend(acc, Flatten(coords[..i]), ringOrLine);
        assert coords[..i + 1][..i] == coords[..i];
        i := i + 1;
      }
      assert coords[..i] == coords;
    } else if g.MultiPolygon? {
      var coords := g.polygons;
      var i := 0;
      while i < |coords|
        invariant 0 <= i <= |coords|
        invariant r == Fold(acc, Flatten(Flatten(coords[..i])))
      {
        var polygon := coords[i];
        ghost var beforePolygon := r;
        var j := 0;
        while j < |polygon|
          invariant 0 <= j <= |polygon|
          invariant r == Fold(beforePolygon, Flatten(polygon[..j]))
        {
          var ring := polygon[j];
          ghost var beforeRing := r;
          var k := 0;
          while k < |ring|
            invariant 0 <= k <= |ring|
            invariant r == Fold(beforeRing, ring[..k])
          {
            r := Visit(r, ring[k]);
            assert ring[..k + 1][..k] == ring[..k];
            k := k + 1;
          }
          assert ring[..k] == ring;
          FoldAppend(beforePolygon, Flatten(polygon[..j]), ring);
          assert polygon[..j + 1][..j] == polygon[..j];
          j := j + 1;
        }
        assert polygon[..j] == polygon;
        assert coords[..i + 1][..i] == coords[..i];
        FlattenAppend(Flatten(coords[..i]), polygon);
        FoldAppend(acc, Flatten(Flatten(coords[..i])), Flatten(polygon));
        i := i + 1;
      }
      assert coords[..i] == coords;
    } else if g.GeometryCollection? {
      var coords := g.members;
      var i := 0;
      while i < |coords|
        invariant 0 <= i <= |coords|
        invariant r == Fold(acc, PositionsOfCollection(coords[..i]))
      {
        r := ExtractCoordinates(coords[i], r);
        FoldAppend(acc, PositionsOfCollection(coords[..i]), Positions(coords[i]));
        assert coords[..i + 1][..i] == coords[..i];
        i := i + 1;
      }
      assert coords[..i] == coords;
    }
  }

  /** get_min_max_coordinates on an already-parsed document: None when the
      document has neither `features` nor a non-null `geometry`, None when no
      position was visited, otherwise the tight bounding box of the visited
      positions. */
  method GetMinMaxCoordinates(d: Document) returns (r: Option<Box>)
    ensures r == DocumentBounds(d)
    ensures r.None? <==> PositionsOfDocument(d) == []
    ensures r.Some? ==> IsTightBox(r.value, PositionsOfDocument(d))
    ensures r.Some? ==> r.value.minLon <= r.value.maxLon && r.value.minLat <= r.value.maxLat
  {
    var acc := Start;
    if d.features.Some? {
      var features := d.features.value;
      var i := 0;
      while i < |features|
        invariant 0 <= i <= |features|
        invariant acc == Fold(Start, PositionsOfFeatures(features[..i]))
      {
        var feature := features[i];
        if feature.geometry.Some? {
          acc := ExtractCoordinates(feature.geometry.value, acc);
        }
        FoldAppend(Start, PositionsOfFeatures(features[..i]), PositionsOfFeature(feature));
        assert features[..i + 1][..i] == features[..i];
        i := i + 1;
      }
      assert features[..i] == features;
    } else if d.geometry.Some? {
      acc := ExtractCoordinates(d.geometry.value, acc);
    } else {
      return None;
    }
    NoneIffNothingVisited(PositionsOfDocument(d));
    if acc.minLon == PosInf {
      return None;
    }
    r := Some(Box(acc.minLon.value, acc.maxLon.value, acc.minLat.value, acc.maxLat.value));
    BoxOfIsTight(PositionsOfDocument(d));
    BoxIsOrdered(PositionsOfDocument(d));
  }

  /** A document with neither a `features` member nor a non-null `geometry`
      member has no bounds; nor has an empty feature list. */
  lemma NoGeometryNoBounds(d: Document)
    ensures d.features.None? && d.geometry.None? ==> DocumentBounds(d) == None
    ensures d.features == Some([]) ==> DocumentBounds(d) == None
  {
  }

  /** When `features` is present the top-level `geometry` is never read. */
  lemma FeaturesShadowGeometry(d: Document, g: Option<Geometry>)
    requires d.features.Some?
    ensures DocumentBounds(d.(geometry := g)) == DocumentBounds(d)
  {
  }

  /** A feature whose geometry is absent, null, lacks `coordinates` or has an
      unrecognised type contributes nothing, wherever it stands in the list. */
  lemma EmptyFeatureIgnored(fs: seq<Feature>, hs: seq<Feature>, f: Feature, g: Option<Geometry>)
    requires f.geometry.None? || f.geometry == Some(Other)
    ensures DocumentBounds(Document(Some(fs + [f] + hs), g)) == DocumentBounds(Document(Some(fs + hs), g))
  {
    PositionsOfFeaturesAppend(fs + [f], hs);
    PositionsOfFeaturesAppend(fs, [f]);
    PositionsOfFeaturesAppend(fs, hs);
    assert PositionsOfFeature(f) == [];
    assert [f][..0] == [];
    assert PositionsOfFeatures([f]) == PositionsOfFeatures([]) + PositionsOfFeature(f) == [];
    assert PositionsOfFeatures(fs + [f]) == PositionsOfFeatures(fs);
  }

  /** The bounds of one feature on its own. */
  function FeatureBounds(f: Feature): Option<Box>
  {
    BoxOf(PositionsOfFeature(f))
  }

  /** Merging per-feature bounds, first to last. */
  function MergeFeatureBounds(fs: seq<Feature>): Option<Box>
  {
    if fs == [] then None
    else Merge(MergeFeatureBounds(fs[..|fs| - 1]), FeatureBounds(fs[|fs| - 1]))
  }

  /** Processing the features in order gives the same box as merging the
      boxes of the features taken one at a time. */
  lemma {:induction false} BoundsMergeFeatureBounds(fs: seq<Feature>, g: Option<Geometry>)
    ensures DocumentBounds(Document(Some(fs), g)) == MergeFeatureBounds(fs)
    decreases |fs|
  {
    if fs != [] {
      var n := |fs|;
      BoundsMergeFeatureBounds(fs[..n - 1], g);
      BoxOfAppend(PositionsOfFeatures(fs[..n - 1]), PositionsOfFeature(fs[n - 1]));
    }
  }

  /** A GeometryCollection is walked through its `coordinates` member only: a
      collection as section 3.1.8 of RFC 7946 writes it, with `geometries` and
      no `coordinates`, is `Other` and yields no bounds, and the `geometries`
      of a collection that does carry `coordinates` are never read, wherever
      the collection stands (in a feature, inside another collection or at
      the top level). */
  lemma CollectionBounds(members: seq<Geometry>, gs: seq<Geometry>, gs': seq<Geometry>)
    ensures Positions(GeometryCollection(members, gs)) == Positions(GeometryCollection(members, gs'))
    ensures DocumentBounds(Document(None, Some(Other))) == None
    ensures DocumentBounds(Document(None, Some(GeometryCollection(members, gs)))) ==
            DocumentBounds(Document(None, Some(GeometryCollection(members, gs'))))
    ensures DocumentBounds(Document(None, Some(GeometryCollection(members, gs)))) ==
            BoxOf(PositionsOfCollection(members))
  {
  }
}
