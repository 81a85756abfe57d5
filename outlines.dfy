/** The country outline store of the web app (app.py): the GeoJSON features
    loaded once at start, the lookup of a country's outline by ISO 3166-1
    alpha-2 code, and the framing that shifts the outline in place and
    measures its bounding box. */
module Outlines {
  import opened Base
  import opened Geometry

  /** A GeoJSON feature: `properties["ISO3166-1-Alpha-2"]`,
      `properties["name"]` and the geometry. */
  datatype Feature = Feature(iso: string, name: string, geometry: Geometry)

  /** How a front end compares a feature's ISO code with the requested code:
      the web app upper-cases both sides (app.py:27), the map widget
      upper-cases only the request (folium_map_widget.py:24). */
  datatype IsoCompare = IgnoreCase | FeatureExact

  predicate IsoMatches(cmp: IsoCompare, featureIso: string, code: string) {
    match cmp
    case IgnoreCase => Upper(featureIso) == Upper(code)
    case FeatureExact => featureIso == Upper(code)
  }

  /** Index of the first feature whose ISO code matches, in file order. */
  function FirstMatch(features: seq<Feature>, code: string, cmp: IsoCompare): (r: Option<nat>)
    ensures r.Some? ==> r.value < |features| && IsoMatches(cmp, features[r.value].iso, code)
    ensures r.Some? ==> forall j | 0 <= j < r.value :: !IsoMatches(cmp, features[j].iso, code)
    ensures r.None? ==> forall j | 0 <= j < |features| :: !IsoMatches(cmp, features[j].iso, code)
  {
    if features == [] then None
    else if IsoMatches(cmp, features[0].iso, code) then Some(0)
    else match FirstMatch(features[1..], code, cmp)
         case None => None
         case Some(i) => Some(i + 1)
  }

  /** The `for feature in ...: if ...: return` search of both front ends. */
  method FindFeature(features: seq<Feature>, code: string, cmp: IsoCompare) returns (r: Option<nat>)
    ensures r == FirstMatch(features, code, cmp)
  {
    var i := 0;
    while i < |features|
      invariant 0 <= i <= |features|
      invariant forall j | 0 <= j < i :: !IsoMatches(cmp, features[j].iso, code)
    {
      if IsoMatches(cmp, features[i].iso, code) {
        FirstMatchIsFirst(features, code, cmp, i);
        return Some(i);
      }
      i := i + 1;
    }
    FirstMatchIsFirst(features, code, cmp, |features|);
    r := None;
  }

  /** FirstMatch is determined by where the first match sits. */
  lemma {:induction false} FirstMatchIsFirst(features: seq<Feature>, code: string, cmp: IsoCompare, i: nat)
    requires i <= |features|
    requires forall j | 0 <= j < i :: !IsoMatches(cmp, features[j].iso, code)
    requires i < |features| ==> IsoMatches(cmp, features[i].iso, code)
    ensures FirstMatch(features, code, cmp) == if i < |features| then Some(i) else None
  {
    var r := FirstMatch(features, code, cmp);
    if r.Some? {
      assert !(r.value < i) && !(i < r.value);
    }
  }

  /** The lookup only looks at ISO codes: features with the same codes in
      the same order give the same answer. */
  lemma {:induction false} FirstMatchOnlyReadsIsos(fs: seq<Feature>, gs: seq<Feature>, code: string, cmp: IsoCompare)
    requires |fs| == |gs|
    requires forall j | 0 <= j < |fs| :: fs[j].iso == gs[j].iso
    ensures FirstMatch(fs, code, cmp) == FirstMatch(gs, code, cmp)
  {
    if fs != [] {
      FirstMatchOnlyReadsIsos(fs[1..], gs[1..], code, cmp);
    }
  }

  /** Lookup in the web app ignores the case of the requested code:
      `lookup("US")` and `lookup("us")` find the same feature. */
  lemma {:induction false} FirstMatchIgnoresCase(features: seq<Feature>, a: string, b: string)
    requires Lower(a) == Lower(b)
    ensures FirstMatch(features, a, IgnoreCase) == FirstMatch(features, b, IgnoreCase)
  {
    UpperEqIffLowerEq(a, b);
    if features != [] {
      FirstMatchIgnoresCase(features[1..], a, b);
    }
  }

  /** When every feature's ISO code is upper-case, as in the outline file,
      the two front ends' lookups find the same feature. */
  lemma {:induction false} LookupsAgreeOnUpperCaseData(features: seq<Feature>, code: string)
    requires forall j | 0 <= j < |features| :: Upper(features[j].iso) == features[j].iso
    ensures FirstMatch(features, code, FeatureExact) == FirstMatch(features, code, IgnoreCase)
  {
    if features != [] {
      UpperIdempotent(code);
      LookupsAgreeOnUpperCaseData(features[1..], code);
    }
  }

  /** The shift the web app applies: RU, NZ and FJ share one window, US has
      its own (app.py:32-35). */
  function AppProfile(code: string): (p: Option<Profile>)
    ensures p == Some(RussiaProfile) <==> Lower(code) in ["ru", "nz", "fj"]
    ensures p == Some(UsaProfile) <==> Lower(code) == "us"
  {
    if Lower(code) in ["ru", "nz", "fj"] then Some(RussiaProfile)
    else if Lower(code) == "us" then Some(UsaProfile)
    else None
  }

  function Shifted(c: Coords, p: Option<Profile>): Coords {
    match p
    case None => c
    case Some(profile) => ShiftCoords(c, profile)
  }

  /** What `get_country_coords` returns: the coordinates and the box, the
      empty list for an unknown code, or the ValueError of `min([])`. */
  datatype Lookup = Found(coords: Coords, extent: Extent) | NoMatch | EmptyRingRaised

  /** The result of `get_country_coords` and the feature list afterwards:
      the shift rewrites the matched feature's own point lists. */
  function CountryCoords(features: seq<Feature>, code: string): (Lookup, seq<Feature>) {
    match FirstMatch(features, code, IgnoreCase)
    case None => (NoMatch, features)
    case Some(i) =>
      var g := features[i].geometry;
      var c := Shifted(AsMultiPolygon(g), AppProfile(code));
      var after := features[i := features[i].(geometry := WithCoords(g, c))];
      match FrameBox(c)
      case EmptyRingError => (EmptyRingRaised, after)
      case Framed(e) => (Found(c, e), after)
  }

  /** The lookup fails exactly for a code no feature carries; otherwise the
      returned box encloses every returned point, and for RU, NZ, FJ and US
      every returned longitude lies in the profile's window. */
  lemma CountryCoordsFramed(features: seq<Feature>, code: string)
    ensures CountryCoords(features, code).0.NoMatch? <==> FirstMatch(features, code, IgnoreCase).None?
    ensures var r := CountryCoords(features, code).0;
            r.Found? ==> forall i, j, k | 0 <= i < |r.coords| && 0 <= j < |r.coords[i]| && 0 <= k < |r.coords[i][j]| ::
                           Within(r.coords[i][j][k], r.extent)
    ensures var r := CountryCoords(features, code).0;
            r.Found? && AppProfile(code).Some? ==>
              forall i, j, k | 0 <= i < |r.coords| && 0 <= j < |r.coords[i]| && 0 <= k < |r.coords[i][j]| ::
                WindowLow(AppProfile(code).value) <= r.coords[i][j][k].lon < WindowLow(AppProfile(code).value) + 360.0
  {
    var r := CountryCoords(features, code).0;
    var m := FirstMatch(features, code, IgnoreCase);
    if m.Some? {
      var c := Shifted(AsMultiPolygon(features[m.value].geometry), AppProfile(code));
      if !HasEmptyRing(c) {
        FrameBoxEnclosesAll(c);
      }
      if AppProfile(code).Some? {
        ShiftCoordsPointwise(AsMultiPolygon(features[m.value].geometry), AppProfile(code).value);
      }
    }
  }

  /** The framing is stable under repetition: a second lookup of the same
      code on the data the first one rewrote returns the same coordinates
      and box and rewrites nothing further. */
  lemma {:induction false} CountryCoordsRepeatable(features: seq<Feature>, code: string)
    ensures CountryCoords(CountryCoords(features, code).1, code) == CountryCoords(features, code)
  {
    var (r1, fs1) := CountryCoords(features, code);
    var m := FirstMatch(features, code, IgnoreCase);
    if m.Some? {
      var i := m.value;
      var g := features[i].geometry;
      var c := Shifted(AsMultiPolygon(g), AppProfile(code));
      assert fs1 == features[i := features[i].(geometry := WithCoords(g, c))];
      FirstMatchOnlyReadsIsos(features, fs1, code, IgnoreCase);
      var g1 := fs1[i].geometry;
      assert AsMultiPolygon(g1) == c;
      if AppProfile(code).Some? {
        ShiftCoordsIdempotent(AsMultiPolygon(g), AppProfile(code).value);
      }
      assert Shifted(AsMultiPolygon(g1), AppProfile(code)) == c;
      WithOwnCoords(g1);
      assert fs1[i := fs1[i].(geometry := WithCoords(g1, c))] == fs1;
    }
  }

  /** The web app's GeoJSON data, loaded once and shared by every request. */
  class OutlineStore {
    var features: seq<Feature>

    constructor (loaded: seq<Feature>)
      ensures features == loaded
    {
      features := loaded;
    }

    /** `get_country_coords`: find, wrap, shift (writing through to the
        stored feature), then measure. */
    method GetCountryCoords(code: string) returns (r: Lookup)
      modifies this
      ensures (r, features) == CountryCoords(old(features), code)
    {
      var found := FindFeature(features, code, IgnoreCase);
      if found.None? {
        return NoMatch;
      }
      var i := found.value;
      var g := features[i].geometry;
      var coords := AsMultiPolygon(g);
      var lower := Lower(code);
      if lower in ["ru", "nz", "fj"] {
        coords := ShiftLongitudes(coords, RussiaProfile);
      }
      if lower == "us" {
        coords := ShiftLongitudes(coords, UsaProfile);
      }
      assert coords == Shifted(AsMultiPolygon(g), AppProfile(code));
      features := features[i := features[i].(geometry := WithCoords(g, coords))];
      var box := BoundingBox(coords);
      match box
      case EmptyRingError => r := EmptyRingRaised;
      case Framed(e) => r := Found(coords, e);
    }
  }

  // ---------------------------------------------------------------------
  // The start of generate_map (app.py:69-75)
  // ---------------------------------------------------------------------

  /** How `generate_map` ends: a map centred on the first point and fitted
      to the box, the "Map not found" paragraph, or an exception. */
  datatype MapPage = MapHtml(center: Point, bounds: Extent) | MapNotFound | Crashed

  /** `generate_map` as written: the unpacking of the lookup's result comes
      first, so the empty list of an unknown code raises before the
      "Map not found" test is reached. */
  function GenerateMap(r: Lookup): (page: MapPage)
    ensures page.MapNotFound? <==> r.Found? && r.coords == []
    ensures r.NoMatch? ==> page.Crashed?
  {
    match r
    case NoMatch => Crashed           // ValueError: not enough values to unpack
    case EmptyRingRaised => Crashed   // the ValueError of min([]) propagates
    case Found(c, e) =>
      if c == [] then MapNotFound
      else if c[0] == [] || c[0][0] == [] then Crashed
      else MapHtml(c[0][0][0], e)
  }

  /** An unknown code never shows "Map not found": the request fails. */
  lemma UnknownCodeCrashes(features: seq<Feature>, code: string)
    requires FirstMatch(features, code, IgnoreCase).None?
    ensures GenerateMap(CountryCoords(features, code).0) == Crashed
  {
  }

  /** A concrete case: the store holds only Germany and the code is "xx". */
  lemma UnknownCodeExample()
    ensures GenerateMap(CountryCoords([Feature("DE", "Germany", Polygon([]))], "xx").0) == Crashed
  {
    var fs := [Feature("DE", "Germany", Polygon([]))];
    assert Upper("DE") != Upper("xx") by {
      assert Upper("DE")[0] == 'D' && Upper("xx")[0] == 'X';
    }
    assert FirstMatch(fs[1..], "xx", IgnoreCase) == None;
  }

  /** `generate_map` as evidently intended: an unknown code is tested for
      before the result is unpacked and shows "Map not found". */
  function GenerateMapChecked(r: Lookup): (page: MapPage)
    ensures page.MapNotFound? <==> r.NoMatch? || (r.Found? && r.coords == [])
    ensures page.MapHtml? ==> r.Found? && page.bounds == r.extent
  {
    match r
    case NoMatch => MapNotFound
    case EmptyRingRaised => Crashed
    case Found(c, e) =>
      if c == [] then MapNotFound
      else if c[0] == [] || c[0][0] == [] then Crashed
      else MapHtml(c[0][0][0], e)
  }

  /** With the check in place an unknown code leads to "Map not found". */
  lemma UnknownCodeShowsNotFound(features: seq<Feature>, code: string)
    ensures GenerateMapChecked(CountryCoords(features, code).0) == MapNotFound <==>
              FirstMatch(features, code, IgnoreCase).None? ||
              (CountryCoords(features, code).0.Found? && CountryCoords(features, code).0.coords == [])
  {
  }
}
