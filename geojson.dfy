/** An already-parsed GeoJSON document (RFC 7946), restricted to the members
    that get_min_max_coordinates looks at, and the sequence of positions that
    the walker visits, in the order it visits them. */
module GeoJson {
  import opened Wrappers

  /** A position (section 3.1.1 of RFC 7946): longitude first, latitude second,
      then any further components (altitude and beyond), which are never read. */
  datatype Position = Position(lon: real, lat: real, extra: seq<real>)

  /** A geometry object as the walker sees it. Each recognised `type` carries a
      `coordinates` member nested to the depth section 3.1 of RFC 7946 fixes for
      that type. GeometryCollection walks its `coordinates` member as a list of
      geometries; the `geometries` member that section 3.1.8 of RFC 7946
      prescribes is carried only to show that it is never read. `Other` is any
      geometry object without a `coordinates` member, or whose `type` is none of
      the seven names the walker recognises (so a standard collection that has
      only `geometries` is `Other`). */
  datatype Geometry =
    | Point(position: Position)
    | LineString(positions: seq<Position>)
    | MultiPoint(positions: seq<Position>)
    | Polygon(rings: seq<seq<Position>>)
    | MultiLineString(lines: seq<seq<Position>>)
    | MultiPolygon(polygons: seq<seq<seq<Position>>>)
    | GeometryCollection(members: seq<Geometry>, geometries: seq<Geometry>)
    | Other

  /** A feature object; `geometry` is None when the member is absent or null. */
  datatype Feature = Feature(geometry: Option<Geometry>)

  /** The top-level object: its `features` member (None when absent) and its
      `geometry` member (None when absent or null). */
  datatype Document = Document(features: Option<seq<Feature>>, geometry: Option<Geometry>)

  /** Concatenation of a list of lists, front to back. */
  function Flatten<T>(xss: seq<seq<T>>): seq<T>
  {
    if xss == [] then [] else Flatten(xss[..|xss| - 1]) + xss[|xss| - 1]
  }

  /** The positions the walker visits in a geometry, in visiting order. */
  function Positions(g: Geometry): seq<Position>
    decreases g, 1
  {
    match g
    case Point(p) => [p]
    case LineString(ps) => ps
    case MultiPoint(ps) => ps
    case Polygon(rings) => Flatten(rings)
    case MultiLineString(lines) => Flatten(lines)
    case MultiPolygon(polygons) => Flatten(Flatten(polygons))
    case GeometryCollection(members, _) => PositionsOfCollection(members)
    case Other => []
  }

  /** The positions visited in a list of geometries, one geometry after another. */
  function PositionsOfCollection(gs: seq<Geometry>): seq<Position>
    decreases gs, 0
  {
    if gs == [] then []
    else PositionsOfCollection(gs[..|gs| - 1]) + Positions(gs[|gs| - 1])
  }

  /** The positions visited in one feature: none when it has no geometry. */
  function PositionsOfFeature(f: Feature): seq<Position>
  {
    match f.geometry
    case None => []
    case Some(g) => Positions(g)
  }

  /** The positions visited in a list of features, one feature after another. */
  function PositionsOfFeatures(fs: seq<Feature>): seq<Position>
  {
    if fs == [] then []
    else PositionsOfFeatures(fs[..|fs| - 1]) + PositionsOfFeature(fs[|fs| - 1])
  }

  /** The positions visited in a document: the features when the `features`
      member is present, otherwise the top-level geometry when there is one,
      otherwise none. */
  function PositionsOfDocument(d: Document): seq<Position>
  {
    if d.features.Some? then PositionsOfFeatures(d.features.value)
    else if d.geometry.Some? then Positions(d.geometry.value)
    else []
  }

  lemma {:induction false} FlattenAppend<T>(xss: seq<seq<T>>, yss: seq<seq<T>>)
    ensures Flatten(xss + yss) == Flatten(xss) + Flatten(yss)
    decreases |yss|
  {
    if yss == [] {
      assert xss + yss == xss;
    } else {
      var n := |yss|;
      assert (xss + yss)[..|xss| + n - 1] == xss + yss[..n - 1];
      FlattenAppend(xss, yss[..n - 1]);
    }
  }

  lemma {:induction false} FlattenMember<T>(xss: seq<seq<T>>, x: T)
    ensures x in Flatten(xss) <==> exists i :: 0 <= i < |xss| && x in xss[i]
    decreases |xss|
  {
    if xss != [] {
      var n := |xss|;
      FlattenMember(xss[..n - 1], x);
      if x in Flatten(xss) && x !in xss[n - 1] {
        var i :| 0 <= i < n - 1 && x in xss[..n - 1][i];
        assert x in xss[i];
      }
      if exists i :: 0 <= i < n && x in xss[i] {
        var i :| 0 <= i < n && x in xss[i];
        if i < n - 1 {
          assert x in xss[..n - 1][i];
        }
      }
    }
  }

  /** Nesting depth is fixed per type: a position is visited exactly when it
      sits at that type's depth in `coordinates`. */
  lemma VisitedAtTypeDepth(g: Geometry, p: Position)
    ensures g.Point? ==> (p in Positions(g) <==> p == g.position)
    ensures g.LineString? || g.MultiPoint? ==> (p in Positions(g) <==> p in g.positions)
    ensures g.Polygon? ==>
      (p in Positions(g) <==> exists i :: 0 <= i < |g.rings| && p in g.rings[i])
    ensures g.MultiLineString? ==>
      (p in Positions(g) <==> exists i :: 0 <= i < |g.lines| && p in g.lines[i])
    ensures g.MultiPolygon? ==>
      (p in Positions(g) <==>
        exists i, j :: 0 <= i < |g.polygons| && 0 <= j < |g.polygons[i]| && p in g.polygons[i][j])
    ensures g.Other? ==> Positions(g) == []
  {
    match g
    case Polygon(rings) => FlattenMember(rings, p);
    case MultiLineString(lines) => FlattenMember(lines, p);
    case MultiPolygon(polygons) =>
      FlattenMember(Flatten(polygons), p);
      forall ring: seq<Position>
        ensures ring in Flatten(polygons) <==>
          exists i :: 0 <= i < |polygons| && ring in polygons[i]
      {
        FlattenMember(polygons, ring);
      }
      if p in Positions(g) {
        var k :| 0 <= k < |Flatten(polygons)| && p in Flatten(polygons)[k];
        var ring := Flatten(polygons)[k];
        assert ring in Flatten(polygons);
        var i :| 0 <= i < |polygons| && ring in polygons[i];
        var j :| 0 <= j < |polygons[i]| && polygons[i][j] == ring;
      }
      if exists i, j :: 0 <= i < |polygons| && 0 <= j < |polygons[i]| && p in polygons[i][j] {
        var i, j :| 0 <= i < |polygons| && 0 <= j < |polygons[i]| && p in polygons[i][j];
        var ring := polygons[i][j];
        assert ring in polygons[i];
        assert ring in Flatten(polygons);
      }
    case _ =>
  }

  lemma {:induction false} PositionsOfFeaturesAppend(fs: seq<Feature>, hs: seq<Feature>)
    ensures PositionsOfFeatures(fs + hs) == PositionsOfFeatures(fs) + PositionsOfFeatures(hs)
    decreases |hs|
  {
    if hs == [] {
      assert fs + hs == fs;
    } else {
      var n := |hs|;
      assert (fs + hs)[..|fs| + n - 1] == fs + hs[..n - 1];
      PositionsOfFeaturesAppend(fs, hs[..n - 1]);
    }
  }
}
