/** The four accumulators min_lon, max_lon, min_lat, max_lat of
    get_min_max_coordinates, the min/max step applied at every visited
    position, and the bounding box that is reported at the end. */
module Extent {
  import opened Wrappers
  import opened GeoJson

  /** An accumulator value: a coordinate, or one of the two float infinities
      the accumulators start from. */
  datatype Ext = NegInf | Finite(value: real) | PosInf

  /** Strict order on accumulator values: a < b. */
  predicate Below(a: Ext, b: Ext)
  {
    match a
    case NegInf => !b.NegInf?
    case Finite(x) => b.PosInf? || (b.Finite? && x < b.value)
    case PosInf => false
  }

  /** Python's built-in min of two values: the second one only when it is
      strictly smaller than the first. */
  function Min(a: Ext, b: Ext): (r: Ext)
    ensures r == a || r == b
    ensures !Below(a, r) && !Below(b, r)
  {
    if Below(b, a) then b else a
  }

  /** Python's built-in max of two values: the second one only when it is
      strictly larger than the first. */
  function Max(a: Ext, b: Ext): (r: Ext)
    ensures r == a || r == b
    ensures !Below(r, a) && !Below(r, b)
  {
    if Below(a, b) then b else a
  }

  datatype Accumulators = Accumulators(minLon: Ext, maxLon: Ext, minLat: Ext, maxLat: Ext)

  /** The start values: float('inf') for the minima, float('-inf') for the maxima. */
  const Start := Accumulators(PosInf, NegInf, PosInf, NegInf)

  /** The four updates made at one visited position: only its longitude and
      latitude are read. */
  function Visit(acc: Accumulators, p: Position): (r: Accumulators)
    ensures Coherent(acc) ==> AllFinite(r)
    ensures Coherent(acc) ==> Encloses(Report(r).value, p)
    ensures r.minLon in {acc.minLon, Finite(p.lon)} && r.maxLon in {acc.maxLon, Finite(p.lon)}
    ensures r.minLat in {acc.minLat, Finite(p.lat)} && r.maxLat in {acc.maxLat, Finite(p.lat)}
    ensures !Below(acc.minLon, r.minLon) && !Below(Finite(p.lon), r.minLon)
    ensures !Below(r.maxLon, acc.maxLon) && !Below(r.maxLon, Finite(p.lon))
    ensures !Below(acc.minLat, r.minLat) && !Below(Finite(p.lat), r.minLat)
    ensures !Below(r.maxLat, acc.maxLat) && !Below(r.maxLat, Finite(p.lat))
  {
    Accumulators(
      Min(acc.minLon, Finite(p.lon)), Max(acc.maxLon, Finite(p.lon)),
      Min(acc.minLat, Finite(p.lat)), Max(acc.maxLat, Finite(p.lat)))
  }

  predicate AllFinite(acc: Accumulators)
  {
    acc.minLon.Finite? && acc.maxLon.Finite? && acc.minLat.Finite? && acc.maxLat.Finite?
  }

  /** The accumulators are either untouched or all four hold coordinates. */
  predicate Coherent(acc: Accumulators)
  {
    acc == Start || AllFinite(acc)
  }

  /** The accumulators after visiting `ps`, first to last, from `acc`. */
  function Fold(acc: Accumulators, ps: seq<Position>): (r: Accumulators)
    ensures Coherent(acc) && ps != [] ==> AllFinite(r)
    ensures Coherent(acc) ==> Coherent(r)
  {
    if ps == [] then acc else Visit(Fold(acc, ps[..|ps| - 1]), ps[|ps| - 1])
  }

  /** The bounding box returned by the source: min_lon, max_lon, min_lat, max_lat. */
  datatype Box = Box(minLon: real, maxLon: real, minLat: real, maxLat: real)

  /** The end of get_min_max_coordinates: None while min_lon is still
      float('inf') (no coordinate was processed), otherwise the four values. */
  function Report(acc: Accumulators): (r: Option<Box>)
    requires Coherent(acc)
    ensures r.None? <==> acc == Start
    ensures r.Some? ==> Holding(r.value) == acc
  {
    if acc.minLon == PosInf then None
    else Some(Box(acc.minLon.value, acc.maxLon.value, acc.minLat.value, acc.maxLat.value))
  }

  /** What the walker reports after visiting exactly the positions `ps`. */
  function BoxOf(ps: seq<Position>): Option<Box>
  {
    Report(Fold(Start, ps))
  }

  predicate Encloses(b: Box, p: Position)
  {
    b.minLon <= p.lon <= b.maxLon && b.minLat <= p.lat <= b.maxLat
  }

  /** Reference definition: `b` encloses every position of `ps`, and each of
      its four sides is the matching coordinate of some position of `ps`. */
  predicate IsTightBox(b: Box, ps: seq<Position>)
  {
    (forall i :: 0 <= i < |ps| ==> Encloses(b, ps[i])) &&
    (exists i :: 0 <= i < |ps| && ps[i].lon == b.minLon) &&
    (exists i :: 0 <= i < |ps| && ps[i].lon == b.maxLon) &&
    (exists i :: 0 <= i < |ps| && ps[i].lat == b.minLat) &&
    (exists i :: 0 <= i < |ps| && ps[i].lat == b.maxLat)
  }

  function MinReal(x: real, y: real): real { if x <= y then x else y }
  function MaxReal(x: real, y: real): real { if x <= y then y else x }

  /** The box holding both boxes, side by side the outer of the two; an absent
      box adds nothing. */
  function Merge(a: Option<Box>, b: Option<Box>): (r: Option<Box>)
    ensures r.None? <==> a.None? && b.None?
    ensures a.None? ==> r == b
    ensures b.None? ==> r == a
    ensures a.Some? && b.Some? ==>
      r.value.minLon <= a.value.minLon && r.value.minLon <= b.value.minLon &&
      r.value.maxLon >= a.value.maxLon && r.value.maxLon >= b.value.maxLon &&
      r.value.minLat <= a.value.minLat && r.value.minLat <= b.value.minLat &&
      r.value.maxLat >= a.value.maxLat && r.value.maxLat >= b.value.maxLat
  {
    match (a, b)
    case (None, _) => b
    case (_, None) => a
    case (Some(x), Some(y)) =>
      Some(Box(MinReal(x.minLon, y.minLon), MaxReal(x.maxLon, y.maxLon),
               MinReal(x.minLat, y.minLat), MaxReal(x.maxLat, y.maxLat)))
  }

  /** The accumulators holding exactly the sides of `b`. */
  function Holding(b: Box): Accumulators
  {
    Accumulators(Finite(b.minLon), Finite(b.maxLon), Finite(b.minLat), Finite(b.maxLat))
  }

  lemma {:induction false} FoldAppend(acc: Accumulators, xs: seq<Position>, ys: seq<Position>)
    ensures Fold(acc, xs + ys) == Fold(Fold(acc, xs), ys)
    decreases |ys|
  {
    if ys == [] {
      assert xs + ys == xs;
    } else {
      var n := |ys|;
      assert (xs + ys)[..|xs| + n - 1] == xs + ys[..n - 1];
      FoldAppend(acc, xs, ys[..n - 1]);
    }
  }

  /** One visit from a tight box gives a tight box of one more position. */
  lemma TightVisit(b: Box, ps: seq<Position>, p: Position)
    requires IsTightBox(b, ps)
    ensures AllFinite(Visit(Holding(b), p))
    ensures IsTightBox(Report(Visit(Holding(b), p)).value, ps + [p])
  {
    var b' := Report(Visit(Holding(b), p)).value;
    var qs := ps + [p];
    var n := |ps|;
    assert qs[n] == p;
    forall i | 0 <= i < |qs| ensures Encloses(b', qs[i]) {
      if i < n { assert qs[i] == ps[i]; }
    }
    if b'.minLon != p.lon {
      var k :| 0 <= k < n && ps[k].lon == b.minLon;
      assert qs[k] == ps[k];
    }
    if b'.maxLon != p.lon {
      var k :| 0 <= k < n && ps[k].lon == b.maxLon;
      assert qs[k] == ps[k];
    }
    if b'.minLat != p.lat {
      var k :| 0 <= k < n && ps[k].lat == b.minLat;
      assert qs[k] == ps[k];
    }
    if b'.maxLat != p.lat {
      var k :| 0 <= k < n && ps[k].lat == b.maxLat;
      assert qs[k] == ps[k];
    }
  }

  /** Nothing visited is reported as None, and something visited as a box. */
  lemma NoneIffNothingVisited(ps: seq<Position>)
    ensures BoxOf(ps).None? <==> ps == []
  {
  }

  /** The reported box encloses every visited position, and each bound is
      attained by some visited position. */
  lemma {:induction false} BoxOfIsTight(ps: seq<Position>)
    requires ps != []
    ensures BoxOf(ps).Some? && IsTightBox(BoxOf(ps).value, ps)
    decreases |ps|
  {
    var n := |ps|;
    var init, p := ps[..n - 1], ps[n - 1];
    assert ps == init + [p];
    if init == [] {
      assert Fold(Start, ps) == Visit(Fold(Start, init), p) == Visit(Start, p);
      var b := BoxOf(ps).value;
      assert b == Box(p.lon, p.lon, p.lat, p.lat);
      assert ps[0] == p;
    } else {
      BoxOfIsTight(init);
      var b := BoxOf(init).value;
      assert Fold(Start, init) == Holding(b);
      TightVisit(b, init, p);
    }
  }

  /** Two tight boxes of the same positions are the same box. */
  lemma TightBoxUnique(b: Box, c: Box, ps: seq<Position>)
    requires IsTightBox(b, ps) && IsTightBox(c, ps)
    ensures b == c
  {
  }

  /** If a box is reported, its minima do not exceed its maxima. */
  lemma BoxIsOrdered(ps: seq<Position>)
    requires BoxOf(ps).Some?
    ensures BoxOf(ps).value.minLon <= BoxOf(ps).value.maxLon
    ensures BoxOf(ps).value.minLat <= BoxOf(ps).value.maxLat
  {
  }

  /** The box of a concatenation is the merge of the two boxes: visiting
      positions in order gives the same box as merging per-part boxes. */
  lemma BoxOfAppend(xs: seq<Position>, ys: seq<Position>)
    ensures BoxOf(xs + ys) == Merge(BoxOf(xs), BoxOf(ys))
  {
    if xs == [] {
      assert xs + ys == ys;
    } else if ys == [] {
      assert xs + ys == xs;
    } else {
      BoxOfIsTight(xs);
      BoxOfIsTight(ys);
      BoxOfIsTight(xs + ys);
      var b, c := BoxOf(xs).value, BoxOf(ys).value;
      var m := Merge(BoxOf(xs), BoxOf(ys)).value;
      var zs := xs + ys;
      forall i | 0 <= i < |zs| ensures Encloses(m, zs[i]) {
        if i < |xs| {
          assert zs[i] == xs[i] && Encloses(b, xs[i]);
        } else {
          assert zs[i] == ys[i - |xs|] && Encloses(c, ys[i - |xs|]);
        }
      }
      MergeSideAttained(xs, ys, b, c, m);
      TightBoxUnique(BoxOf(zs).value, m, zs);
    }
  }

  lemma MergeSideAttained(xs: seq<Position>, ys: seq<Position>, b: Box, c: Box, m: Box)
    requires IsTightBox(b, xs) && IsTightBox(c, ys) && Merge(Some(b), Some(c)) == Some(m)
    ensures exists i :: 0 <= i < |xs + ys| && (xs + ys)[i].lon == m.minLon
    ensures exists i :: 0 <= i < |xs + ys| && (xs + ys)[i].lon == m.maxLon
    ensures exists i :: 0 <= i < |xs + ys| && (xs + ys)[i].lat == m.minLat
    ensures exists i :: 0 <= i < |xs + ys| && (xs + ys)[i].lat == m.maxLat
  {
    var zs := xs + ys;
    var i :| 0 <= i < |xs| && xs[i].lon == b.minLon;
    var j :| 0 <= j < |ys| && ys[j].lon == c.minLon;
    assert zs[i] == xs[i] && zs[|xs| + j] == ys[j];
    i :| 0 <= i < |xs| && xs[i].lon == b.maxLon;
    j :| 0 <= j < |ys| && ys[j].lon == c.maxLon;
    assert zs[i] == xs[i] && zs[|xs| + j] == ys[j];
    i :| 0 <= i < |xs| && xs[i].lat == b.minLat;
    j :| 0 <= j < |ys| && ys[j].lat == c.minLat;
    assert zs[i] == xs[i] && zs[|xs| + j] == ys[j];
    i :| 0 <= i < |xs| && xs[i].lat == b.maxLat;
    j :| 0 <= j < |ys| && ys[j].lat == c.maxLat;
    assert zs[i] == xs[i] && zs[|xs| + j] == ys[j];
  }

  /** Only the first two components of a position are read: sequences that
      agree on every longitude and latitude leave the same accumulators. */
  lemma {:induction false} OnlyLonLatRead(acc: Accumulators, ps: seq<Position>, qs: seq<Position>)
    requires |ps| == |qs|
    requires forall i :: 0 <= i < |ps| ==> ps[i].lon == qs[i].lon && ps[i].lat == qs[i].lat
    ensures Fold(acc, ps) == Fold(acc, qs)
    decreases |ps|
  {
    if ps != [] {
      var n := |ps|;
      OnlyLonLatRead(acc, ps[..n - 1], qs[..n - 1]);
    }
  }

  /** The reported box depends only on which positions were visited, not on
      their order or how often each was visited. */
  lemma BoxOfDependsOnlyOnVisitedSet(ps: seq<Position>, qs: seq<Position>)
    requires forall p :: p in ps <==> p in qs
    ensures BoxOf(ps) == BoxOf(qs)
  {
    if qs != [] { assert qs[0] in ps; }
    if ps != [] { assert ps[0] in qs; }
    if ps != [] {
      BoxOfIsTight(ps);
      BoxOfIsTight(qs);
      var b, c := BoxOf(ps).value, BoxOf(qs).value;
      forall i | 0 <= i < |qs| ensures Encloses(b, qs[i]) {
        assert qs[i] in ps;
        var k :| 0 <= k < |ps| && ps[k] == qs[i];
      }
      SideAttainedInOther(ps, qs, b);
      TightBoxUnique(b, c, qs);
    }
  }

  lemma SideAttainedInOther(ps: seq<Position>, qs: seq<Position>, b: Box)
    requires forall p :: p in ps ==> p in qs
    requires IsTightBox(b, ps)
    ensures exists i :: 0 <= i < |qs| && qs[i].lon == b.minLon
    ensures exists i :: 0 <= i < |qs| && qs[i].lon == b.maxLon
    ensures exists i :: 0 <= i < |qs| && qs[i].lat == b.minLat
    ensures exists i :: 0 <= i < |qs| && qs[i].lat == b.maxLat
  {
    var k :| 0 <= k < |ps| && ps[k].lon == b.minLon;
    assert ps[k] in qs;
    k :| 0 <= k < |ps| && ps[k].lon == b.maxLon;
    assert ps[k] in qs;
    k :| 0 <= k < |ps| && ps[k].lat == b.minLat;
    assert ps[k] in qs;
    k :| 0 <= k < |ps| && ps[k].lat == b.maxLat;
    assert ps[k] in qs;
  }
}
