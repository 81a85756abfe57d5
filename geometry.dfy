/** Country outline geometry as the quiz frames it: GeoJSON coordinate
    nesting, the antimeridian longitude shifts and the bounding box that the
    map view is fitted to. Shared by the web app (app.py) and the desktop
    map widget (folium_map_widget.py), which carry the same code twice. */
module Geometry {
  import opened Base

  /** A GeoJSON position: `point[0]` is the longitude, `point[1]` the latitude. */
  datatype Point = Point(lon: real, lat: real)

  type Ring = seq<Point>
  /** One polygon: its outer ring followed by its holes. */
  type Part = seq<Ring>
  /** MultiPolygon nesting: parts of rings of points. */
  type Coords = seq<Part>

  /** The two geometry types the outline file holds. */
  datatype Geometry = Polygon(rings: Part) | MultiPolygon(parts: Coords)

  // ---------------------------------------------------------------------
  // Wrapping a Polygon into MultiPolygon nesting (app.py:28-30)
  // ---------------------------------------------------------------------

  /** The coordinates in MultiPolygon nesting: a Polygon becomes a list with
      one part, a MultiPolygon is taken as it is. */
  function AsMultiPolygon(g: Geometry): (c: Coords)
    ensures g.Polygon? ==> |c| == 1 && c[0] == g.rings
    ensures g.MultiPolygon? ==> c == g.parts
  {
    match g
    case Polygon(rings) => [rings]
    case MultiPolygon(parts) => parts
  }

  /** What the geometry looks like after its coordinates were rewritten
      through the wrapped list: `[coords]` shares its one element with the
      Polygon, so the Polygon sees the rewritten rings. */
  function WithCoords(g: Geometry, c: Coords): (g': Geometry)
    requires g.Polygon? ==> |c| == 1
    ensures g'.Polygon? == g.Polygon?
    ensures AsMultiPolygon(g') == c
  {
    match g
    case Polygon(_) => Polygon(c[0])
    case MultiPolygon(_) => MultiPolygon(c)
  }

  /** Writing back the coordinates a geometry already has changes nothing. */
  lemma WithOwnCoords(g: Geometry)
    ensures WithCoords(g, AsMultiPolygon(g)) == g
  {
  }

  // ---------------------------------------------------------------------
  // The antimeridian shift (app.py:49-66, folium_map_widget.py:73-89)
  // ---------------------------------------------------------------------

  /** Python's `x % 360` for a float `x`: the floored modulo, always in
      [0, 360). */
  function Mod360(x: real): (r: real)
    ensures 0.0 <= r < 360.0
    ensures Congruent360(r, x)
  {
    var f := (x / 360.0).Floor;
    assert f as real <= x / 360.0 < f as real + 1.0;
    assert (x - 360.0 * f as real - x) / 360.0 == (-f) as real;
    x - 360.0 * f as real
  }

  /** `a` and `b` differ by a whole multiple of 360 degrees. */
  predicate Congruent360(a: real, b: real) {
    ((a - b) / 360.0).Floor as real == (a - b) / 360.0
  }

  lemma CongruentSymmetric(a: real, b: real)
    requires Congruent360(a, b)
    ensures Congruent360(b, a)
  {
    var k := ((a - b) / 360.0).Floor;
    assert (b - a) / 360.0 == (-k) as real;
  }

  lemma CongruentTransitive(a: real, b: real, c: real)
    requires Congruent360(a, b) && Congruent360(b, c)
    ensures Congruent360(a, c)
  {
    var k := ((a - b) / 360.0).Floor;
    var m := ((b - c) / 360.0).Floor;
    assert (a - b) / 360.0 == k as real && (b - c) / 360.0 == m as real;
    assert (a - c) / 360.0 == (a - b) / 360.0 + (b - c) / 360.0;
    assert ((k + m) as real).Floor == k + m;
  }

  /** Shifting by a multiple of 360 keeps the congruence class. */
  lemma CongruentOffset(a: real, k: int)
    ensures Congruent360(a + 360.0 * k as real, a)
  {
    assert (a + 360.0 * k as real - a) / 360.0 == k as real;
  }

  /** The two shift profiles and the constant each one subtracts last. */
  datatype Profile = RussiaProfile | UsaProfile

  function Offset(p: Profile): real {
    match p
    case RussiaProfile => 20.0
    case UsaProfile => 380.0
  }

  /** Lowest longitude of the profile's window: -20 for RU/NZ/FJ, -380 for US. */
  function WindowLow(p: Profile): real { -Offset(p) }

  /** `point[0] -= 340; point[0] = point[0] % 360; point[0] -= offset`. */
  function ShiftLon(lon: real, p: Profile): (r: real)
    ensures WindowLow(p) <= r < WindowLow(p) + 360.0
  {
    Mod360(lon - 340.0) - Offset(p)
  }

  /** The shifted longitude is congruent to the original one: 340 + 20 and
      340 + 380 are both multiples of 360. */
  lemma ShiftLonCongruent(lon: real, p: Profile)
    ensures Congruent360(ShiftLon(lon, p), lon)
  {
    var y := lon - 340.0;
    assert Congruent360(Mod360(y), y);
    var k := ((Mod360(y) - y) / 360.0).Floor;
    assert Mod360(y) == y + 360.0 * k as real;
    match p
    case RussiaProfile =>
      assert ShiftLon(lon, p) == lon + 360.0 * (k - 1) as real;
      CongruentOffset(lon, k - 1);
    case UsaProfile =>
      assert ShiftLon(lon, p) == lon + 360.0 * (k - 2) as real;
      CongruentOffset(lon, k - 2);
  }

  /** Two values in one half-open window of width 360 that are congruent
      modulo 360 are equal. */
  lemma WindowUnique(a: real, b: real, low: real)
    requires low <= a < low + 360.0 && low <= b < low + 360.0
    requires Congruent360(a, b)
    ensures a == b
  {
    var q := (a - b) / 360.0;
    assert -1.0 < q < 1.0;
    assert q.Floor == 0;
  }

  /** The shift picks THE representative of `lon` modulo 360 inside the
      profile's window: [-20, 340) for RU/NZ/FJ, [-380, -20) for US. */
  lemma {:induction false} ShiftLonCharacterised(lon: real, p: Profile, y: real)
    ensures ShiftLon(lon, p) == y <==>
              (WindowLow(p) <= y < WindowLow(p) + 360.0 && Congruent360(y, lon))
  {
    ShiftLonCongruent(lon, p);
    if WindowLow(p) <= y < WindowLow(p) + 360.0 && Congruent360(y, lon) {
      CongruentSymmetric(ShiftLon(lon, p), lon);
      CongruentTransitive(y, lon, ShiftLon(lon, p));
      WindowUnique(y, ShiftLon(lon, p), WindowLow(p));
    }
  }

  /** Shifting an already shifted longitude again changes nothing. */
  lemma {:induction false} ShiftLonIdempotent(lon: real, p: Profile)
    ensures ShiftLon(ShiftLon(lon, p), p) == ShiftLon(lon, p)
  {
    var y := ShiftLon(lon, p);
    ShiftLonCharacterised(y, p, y);
  }

  function ShiftPoint(pt: Point, p: Profile): Point {
    pt.(lon := ShiftLon(pt.lon, p))
  }

  function ShiftRing(r: Ring, p: Profile): Ring {
    seq(|r|, k requires 0 <= k < |r| => ShiftPoint(r[k], p))
  }

  function ShiftPart(part: Part, p: Profile): Part {
    seq(|part|, j requires 0 <= j < |part| => ShiftRing(part[j], p))
  }

  /** The coordinates after `shift_russia` / `shift_usa`. */
  function ShiftCoords(c: Coords, p: Profile): Coords {
    seq(|c|, i requires 0 <= i < |c| => ShiftPart(c[i], p))
  }

  /** The shift keeps the nesting and every latitude and rewrites every
      longitude to its representative in the profile's window. */
  lemma ShiftCoordsPointwise(c: Coords, p: Profile)
    ensures |ShiftCoords(c, p)| == |c|
    ensures forall i | 0 <= i < |c| :: |ShiftCoords(c, p)[i]| == |c[i]|
    ensures forall i, j | 0 <= i < |c| && 0 <= j < |c[i]| ::
              |ShiftCoords(c, p)[i][j]| == |c[i][j]|
    ensures forall i, j, k | 0 <= i < |c| && 0 <= j < |c[i]| && 0 <= k < |c[i][j]| ::
              ShiftCoords(c, p)[i][j][k].lat == c[i][j][k].lat &&
              WindowLow(p) <= ShiftCoords(c, p)[i][j][k].lon < WindowLow(p) + 360.0 &&
              Congruent360(ShiftCoords(c, p)[i][j][k].lon, c[i][j][k].lon)
  {
    forall i, j, k | 0 <= i < |c| && 0 <= j < |c[i]| && 0 <= k < |c[i][j]|
      ensures Congruent360(ShiftCoords(c, p)[i][j][k].lon, c[i][j][k].lon)
    {
      ShiftLonCongruent(c[i][j][k].lon, p);
    }
  }

  lemma ShiftRingIdempotent(r: Ring, p: Profile)
    ensures ShiftRing(ShiftRing(r, p), p) == ShiftRing(r, p)
  {
    forall k | 0 <= k < |r| ensures ShiftRing(ShiftRing(r, p), p)[k] == ShiftRing(r, p)[k] {
      ShiftLonIdempotent(r[k].lon, p);
    }
  }

  lemma ShiftPartIdempotent(part: Part, p: Profile)
    ensures ShiftPart(ShiftPart(part, p), p) == ShiftPart(part, p)
  {
    forall j | 0 <= j < |part| ensures ShiftPart(ShiftPart(part, p), p)[j] == ShiftPart(part, p)[j] {
      ShiftRingIdempotent(part[j], p);
    }
  }

  /** Applying a shift twice gives the coordinates of applying it once, so
      shifting the shared outline data again on a later reveal is harmless. */
  lemma ShiftCoordsIdempotent(c: Coords, p: Profile)
    ensures ShiftCoords(ShiftCoords(c, p), p) == ShiftCoords(c, p)
  {
    forall i | 0 <= i < |c| ensures ShiftCoords(ShiftCoords(c, p), p)[i] == ShiftCoords(c, p)[i] {
      ShiftPartIdempotent(c[i], p);
    }
  }

  /** The triple loop of `shift_russia` / `shift_usa`: every point's longitude
      is rewritten in three steps, part by part, ring by ring. */
  method ShiftLongitudes(coords: Coords, p: Profile) returns (shifted: Coords)
    ensures shifted == ShiftCoords(coords, p)
  {
    shifted := coords;
    var i := 0;
    while i < |shifted|
      invariant 0 <= i <= |shifted| == |coords|
      invariant forall a | 0 <= a < i :: shifted[a] == ShiftPart(coords[a], p)
      invariant forall a | i <= a < |coords| :: shifted[a] == coords[a]
    {
      var part := shifted[i];
      var j := 0;
      while j < |part|
        invariant 0 <= j <= |part| == |coords[i]|
        invariant forall b | 0 <= b < j :: part[b] == ShiftRing(coords[i][b], p)
        invariant forall b | j <= b < |part| :: part[b] == coords[i][b]
      {
        var ring := part[j];
        var k := 0;
        while k < |ring|
          invariant 0 <= k <= |ring| == |coords[i][j]|
          invariant forall m | 0 <= m < k :: ring[m] == ShiftPoint(coords[i][j][m], p)
          invariant forall m | k <= m < |ring| :: ring[m] == coords[i][j][m]
        {
          var lon := ring[k].lon;
          lon := lon - 340.0;
          lon := Mod360(lon);
          lon := lon - Offset(p);
          ring := ring[k := ring[k].(lon := lon)];
          k := k + 1;
        }
        assert ring == ShiftRing(coords[i][j], p);
        part := part[j := ring];
        j := j + 1;
      }
      assert part == ShiftPart(coords[i], p);
      shifted := shifted[i := part];
      i := i + 1;
    }
  }

  // ---------------------------------------------------------------------
  // Bounding box (app.py:37-45, folium_map_widget.py:37-44)
  // ---------------------------------------------------------------------

  /** The four accumulators. `NoPoints` is their starting value
      `(inf, -inf, inf, -inf)`, kept when no point is visited. */
  datatype Extent = NoPoints | Box(xmin: real, xmax: real, ymin: real, ymax: real)

  /** The accumulators after taking one more point into account. */
  function Include(e: Extent, pt: Point): Extent {
    match e
    case NoPoints => Box(pt.lon, pt.lon, pt.lat, pt.lat)
    case Box(xmin, xmax, ymin, ymax) =>
      Box(if pt.lon < xmin then pt.lon else xmin,
          if pt.lon > xmax then pt.lon else xmax,
          if pt.lat < ymin then pt.lat else ymin,
          if pt.lat > ymax then pt.lat else ymax)
  }

  /** The accumulators after visiting the points in order. */
  function ExtentOf(ps: seq<Point>): Extent {
    if ps == [] then NoPoints else Include(ExtentOf(ps[..|ps| - 1]), ps[|ps| - 1])
  }

  predicate Within(pt: Point, e: Extent) {
    e.Box? && e.xmin <= pt.lon <= e.xmax && e.ymin <= pt.lat <= e.ymax
  }

  /** Each bound of a box is reached by one of the points. */
  predicate Attained(ps: seq<Point>, e: Extent)
    requires e.Box?
  {
    && (exists k | 0 <= k < |ps| :: ps[k].lon == e.xmin)
    && (exists k | 0 <= k < |ps| :: ps[k].lon == e.xmax)
    && (exists k | 0 <= k < |ps| :: ps[k].lat == e.ymin)
    && (exists k | 0 <= k < |ps| :: ps[k].lat == e.ymax)
  }

  /** The box encloses every visited point, and each of its four bounds is
      reached by one of them; it is missing only when there is no point. */
  lemma {:induction false} ExtentOfIsTight(ps: seq<Point>)
    ensures ExtentOf(ps).NoPoints? <==> ps == []
    ensures forall k | 0 <= k < |ps| :: Within(ps[k], ExtentOf(ps))
    ensures ExtentOf(ps).Box? ==> Attained(ps, ExtentOf(ps))
  {
    if ps != [] {
      var n := |ps| - 1;
      var init := ps[..n];
      var last := ps[n];
      ExtentOfIsTight(init);
      var e := ExtentOf(init);
      var e' := ExtentOf(ps);
      assert e' == Include(e, last);
      forall k | 0 <= k < n ensures Within(ps[k], e') {
        assert ps[k] == init[k];
      }
      if e.Box? {
        var a :| 0 <= a < n && init[a].lon == e.xmin;
        var b :| 0 <= b < n && init[b].lon == e.xmax;
        var c :| 0 <= c < n && init[c].lat == e.ymin;
        var d :| 0 <= d < n && init[d].lat == e.ymax;
        assert ps[a] == init[a] && ps[b] == init[b] && ps[c] == init[c] && ps[d] == init[d];
      }
    }
  }

  /** All points, in the order the loops visit them. */
  function FlattenPart(part: Part): seq<Point> {
    if part == [] then [] else FlattenPart(part[..|part| - 1]) + part[|part| - 1]
  }

  function Flatten(c: Coords): seq<Point> {
    if c == [] then [] else Flatten(c[..|c| - 1]) + FlattenPart(c[|c| - 1])
  }

  lemma {:induction false} FlattenPartMembers(part: Part, pt: Point)
    ensures pt in FlattenPart(part) <==> exists j, k :: 0 <= j < |part| && 0 <= k < |part[j]| && part[j][k] == pt
  {
    if part != [] {
      var n := |part| - 1;
      var init := part[..n];
      var last := part[n];
      FlattenPartMembers(init, pt);
      assert FlattenPart(part) == FlattenPart(init) + last;
      assert pt in FlattenPart(part) <==> pt in FlattenPart(init) || pt in last;
      if pt in last {
        var k :| 0 <= k < |last| && last[k] == pt;
        assert part[n][k] == pt;
      }
      if pt in FlattenPart(init) {
        var j, k :| 0 <= j < |init| && 0 <= k < |init[j]| && init[j][k] == pt;
        assert part[j][k] == pt;
      }
      if exists j, k :: 0 <= j < |part| && 0 <= k < |part[j]| && part[j][k] == pt {
        var j, k :| 0 <= j < |part| && 0 <= k < |part[j]| && part[j][k] == pt;
        if j < n {
          assert init[j][k] == pt;
        } else {
          assert last[k] == pt;
        }
      }
    }
  }

  /** A point is visited by the loops exactly when it is one of the
      geometry's points. */
  lemma {:induction false} FlattenMembers(c: Coords, pt: Point)
    ensures pt in Flatten(c) <==>
              exists i, j, k :: 0 <= i < |c| && 0 <= j < |c[i]| && 0 <= k < |c[i][j]| && c[i][j][k] == pt
  {
    if c != [] {
      var init := c[..|c| - 1];
      FlattenMembers(init, pt);
      FlattenPartMembers(c[|c| - 1], pt);
      if exists i, j, k :: 0 <= i < |c| && 0 <= j < |c[i]| && 0 <= k < |c[i][j]| && c[i][j][k] == pt {
        var i, j, k :| 0 <= i < |c| && 0 <= j < |c[i]| && 0 <= k < |c[i][j]| && c[i][j][k] == pt;
        if i < |c| - 1 {
          assert init[i][j][k] == pt;
        }
      }
    }
  }

  /** Python's `min(lons)` raises ValueError on an empty ring. */
  predicate HasEmptyRing(c: Coords) {
    exists i, j :: 0 <= i < |c| && 0 <= j < |c[i]| && c[i][j] == []
  }

  datatype BoxResult = Framed(extent: Extent) | EmptyRingError

  /** What the bounding-box loop yields for the coordinates. */
  function FrameBox(c: Coords): BoxResult {
    if HasEmptyRing(c) then EmptyRingError else Framed(ExtentOf(Flatten(c)))
  }

  /** The box of a geometry without empty rings encloses every point, each
      bound is reached by a point, and it is missing only for a geometry
      without points. */
  lemma FrameBoxEnclosesAll(c: Coords)
    requires !HasEmptyRing(c)
    ensures FrameBox(c).extent.NoPoints? <==> c == [] || forall i | 0 <= i < |c| :: c[i] == []
    ensures forall i, j, k | 0 <= i < |c| && 0 <= j < |c[i]| && 0 <= k < |c[i][j]| ::
              Within(c[i][j][k], FrameBox(c).extent)
    ensures FrameBox(c).extent.Box? ==>
              exists i, j, k :: 0 <= i < |c| && 0 <= j < |c[i]| && 0 <= k < |c[i][j]| &&
                                c[i][j][k].lon == FrameBox(c).extent.xmin
    ensures FrameBox(c).extent.Box? ==>
              exists i, j, k :: 0 <= i < |c| && 0 <= j < |c[i]| && 0 <= k < |c[i][j]| &&
                                c[i][j][k].lon == FrameBox(c).extent.xmax
    ensures FrameBox(c).extent.Box? ==>
              exists i, j, k :: 0 <= i < |c| && 0 <= j < |c[i]| && 0 <= k < |c[i][j]| &&
                                c[i][j][k].lat == FrameBox(c).extent.ymin
    ensures FrameBox(c).extent.Box? ==>
              exists i, j, k :: 0 <= i < |c| && 0 <= j < |c[i]| && 0 <= k < |c[i][j]| &&
                                c[i][j][k].lat == FrameBox(c).extent.ymax
  {
    var ps := Flatten(c);
    var e := ExtentOf(ps);
    ExtentOfIsTight(ps);
    forall i, j, k | 0 <= i < |c| && 0 <= j < |c[i]| && 0 <= k < |c[i][j]|
      ensures Within(c[i][j][k], e)
    {
      FlattenMembers(c, c[i][j][k]);
      var n :| 0 <= n < |ps| && ps[n] == c[i][j][k];
    }
    forall i | 0 <= i < |c| && c[i] != [] ensures Within(c[i][0][0], e) {
      assert c[i][0] != [];
    }
    if ps != [] {
      FlattenMembers(c, ps[0]);
    }
    if e.Box? {
      var a :| 0 <= a < |ps| && ps[a].lon == e.xmin;
      var b :| 0 <= b < |ps| && ps[b].lon == e.xmax;
      var d :| 0 <= d < |ps| && ps[d].lat == e.ymin;
      var u :| 0 <= u < |ps| && ps[u].lat == e.ymax;
      FlattenMembers(c, ps[a]);
      FlattenMembers(c, ps[b]);
      FlattenMembers(c, ps[d]);
      FlattenMembers(c, ps[u]);
    }
  }

  lemma ExtentOfSnoc(ps: seq<Point>, pt: Point)
    ensures ExtentOf(ps + [pt]) == Include(ExtentOf(ps), pt)
  {
    assert (ps + [pt])[..|ps|] == ps;
  }

  lemma FlattenPartSnoc(part: Part, j: nat)
    requires j < |part|
    ensures FlattenPart(part[..j + 1]) == FlattenPart(part[..j]) + part[j]
  {
    assert part[..j + 1][..j] == part[..j];
  }

  lemma FlattenSnoc(c: Coords, i: nat)
    requires i < |c|
    ensures Flatten(c[..i + 1]) == Flatten(c[..i]) + FlattenPart(c[i])
  {
    assert c[..i + 1][..i] == c[..i];
  }

  /** The innermost loop: one ring's points taken into the accumulators. */
  method ScanRing(e0: Extent, ghost done: seq<Point>, ring: Ring) returns (e: Extent)
    requires e0 == ExtentOf(done)
    ensures e == ExtentOf(done + ring)
  {
    e := e0;
    var k := 0;
    assert done + ring[..0] == done;
    while k < |ring|
      invariant 0 <= k <= |ring|
      invariant e == ExtentOf(done + ring[..k])
    {
      assert done + ring[..k + 1] == (done + ring[..k]) + [ring[k]];
      ExtentOfSnoc(done + ring[..k], ring[k]);
      e := Include(e, ring[k]);
      k := k + 1;
    }
    assert ring[..k] == ring;
  }

  predicate PartHasEmptyRing(part: Part) {
    exists j :: 0 <= j < |part| && part[j] == []
  }

  /** The loop over one part's rings: the ValueError of an empty ring, or
      the accumulators after all of the part's points. */
  method ScanPart(e0: Extent, ghost done: seq<Point>, part: Part) returns (r: BoxResult)
    requires e0 == ExtentOf(done)
    ensures r == if PartHasEmptyRing(part) then EmptyRingError else Framed(ExtentOf(done + FlattenPart(part)))
  {
    var e := e0;
    var j := 0;
    ghost var acc := done;
    assert part[..0] == [];
    while j < |part|
      invariant 0 <= j <= |part|
      invariant acc == done + FlattenPart(part[..j])
      invariant e == ExtentOf(acc)
      invariant forall b | 0 <= b < j :: part[b] != []
    {
      if part[j] == [] {
        assert PartHasEmptyRing(part);
        return EmptyRingError;
      }
      e := ScanRing(e, acc, part[j]);
      FlattenPartSnoc(part, j);
      acc := acc + part[j];
      j := j + 1;
    }
    assert part[..j] == part;
    r := Framed(e);
  }

  /** The min/max loop over every point of every ring of every part. */
  method BoundingBox(c: Coords) returns (r: BoxResult)
    ensures r == FrameBox(c)
  {
    var e := NoPoints;
    var i := 0;
    while i < |c|
      invariant 0 <= i <= |c|
      invariant e == ExtentOf(Flatten(c[..i]))
      invariant forall a | 0 <= a < i :: !PartHasEmptyRing(c[a])
    {
      var pr := ScanPart(e, Flatten(c[..i]), c[i]);
      if pr.EmptyRingError? {
        var j :| 0 <= j < |c[i]| && c[i][j] == [];
        assert HasEmptyRing(c);
        return EmptyRingError;
      }
      e := pr.extent;
      FlattenSnoc(c, i);
      i := i + 1;
    }
    assert c[..i] == c;
    assert !HasEmptyRing(c) by {
      forall a, b | 0 <= a < |c| && 0 <= b < |c[a]| ensures c[a][b] != [] {
        assert !PartHasEmptyRing(c[a]);
      }
    }
    r := Framed(e);
  }
}
