/** The framing part of the desktop map widget's `create_map`
    (folium_map_widget.py): the outline is looked up in a freshly loaded
    feature list, its coordinates are kept in the widget's `current_coords`
    (which shares its point lists with the outline), shifted in place, and
    measured. */
module MapWidget {
  import opened Base
  import opened Geometry
  import opened Outlines

  /** The widget's shift choice. The US test is `country_iso.lower() in "us"`,
      a substring test, so "", "u" and "s" select it too. */
  function WidgetProfile(code: string): (p: Option<Profile>)
    ensures p == Some(RussiaProfile) <==> Lower(code) in ["ru", "nz", "fj"]
    ensures p == Some(UsaProfile) <==> Lower(code) !in ["ru", "nz", "fj"] && IsSubstring(Lower(code), "us")
  {
    if Lower(code) in ["ru", "nz", "fj"] then Some(RussiaProfile)
    else if IsSubstring(Lower(code), "us") then Some(UsaProfile)
    else None
  }

  /** Among two-letter codes the substring test admits only "us", so the
      widget and the web app shift the same countries. */
  lemma TwoLetterCodesShiftAlike(code: string)
    requires |code| == 2
    ensures WidgetProfile(code) == AppProfile(code)
  {
    var l := Lower(code);
    IsSubstringIffOccurs(l, "us");
    if IsSubstring(l, "us") {
      var i: nat :| OccursAt(l, "us", i);
      assert i == 0;
      assert l == "us"[0..2] == "us";
    }
  }

  /** The two tests never both hold, so at most one shift is applied. */
  lemma ShiftTestsExclusive(l: string)
    requires l in ["ru", "nz", "fj"]
    ensures !IsSubstring(l, "us")
  {
    assert |l| == 2 && l[0] != 'u';
    forall i: nat ensures !OccursAt(l, "us", i) {
      if i == 0 {
        assert "us"[0..2][0] == 'u';
      }
    }
    IsSubstringIffOccurs(l, "us");
  }

  /** A one-letter code such as "s" also selects the US shift. */
  lemma SingleLetterSelectsUsShift()
    ensures WidgetProfile("s") == Some(UsaProfile)
  {
    assert Lower("s") == "s";
    assert "s" <= "us"[1..];
  }

  /** How `create_map` ends as far as framing goes: the (shifted) outline
      handed to `GeoJson` with the box, the UnboundLocalError of an unknown
      code, or the ValueError of `min([])`. */
  datatype WidgetFrame = Drawn(outline: Feature, extent: Extent) | UnboundOutline | RingValueError

  /** The widget's result and its `current_coords` afterwards. */
  function WidgetFraming(outlines: seq<Feature>, code: string, current: Coords): (WidgetFrame, Coords) {
    match FirstMatch(outlines, code, FeatureExact)
    case None => (UnboundOutline, current)
    case Some(i) =>
      var g := outlines[i].geometry;
      var c := Shifted(AsMultiPolygon(g), WidgetProfile(code));
      var outline := outlines[i].(geometry := WithCoords(g, c));
      match FrameBox(c)
      case EmptyRingError => (RingValueError, c)
      case Framed(e) => (Drawn(outline, e), c)
  }

  /** The outline handed to `GeoJson` carries exactly the coordinates in
      `current_coords`, shifted ones included, and the box encloses each of
      its points. An unknown code leaves `current_coords` as it was. */
  lemma WidgetFramingAliases(outlines: seq<Feature>, code: string, current: Coords)
    ensures var (r, c) := WidgetFraming(outlines, code, current);
            (r.Drawn? ==> AsMultiPolygon(r.outline.geometry) == c) &&
            (r.Drawn? ==> forall i, j, k | 0 <= i < |c| && 0 <= j < |c[i]| && 0 <= k < |c[i][j]| ::
                            Within(c[i][j][k], r.extent)) &&
            (r.UnboundOutline? <==> FirstMatch(outlines, code, FeatureExact).None?) &&
            (r.UnboundOutline? ==> c == current)
  {
    var (r, c) := WidgetFraming(outlines, code, current);
    if r.Drawn? {
      FrameBoxEnclosesAll(c);
    }
  }

  class MapWidget {
    var currentCoords: Coords

    /** `self.current_coords = []`. */
    constructor ()
      ensures currentCoords == []
    {
      currentCoords := [];
    }

    /** The lookup, wrap, shift and bounding-box part of `create_map`. */
    method CreateMap(outlines: seq<Feature>, code: string) returns (r: WidgetFrame)
      modifies this
      ensures (r, currentCoords) == WidgetFraming(outlines, code, old(currentCoords))
    {
      var found := FindFeature(outlines, code, FeatureExact);
      if found.None? {
        return UnboundOutline;
      }
      var outline := outlines[found.value];
      currentCoords := AsMultiPolygon(outline.geometry);
      var lower := Lower(code);
      if lower in ["ru", "nz", "fj"] {
        currentCoords := ShiftLongitudes(currentCoords, RussiaProfile);
        ShiftTestsExclusive(lower);
      }
      if IsSubstring(lower, "us") {
        currentCoords := ShiftLongitudes(currentCoords, UsaProfile);
      }
      outline := outline.(geometry := WithCoords(outline.geometry, currentCoords));
      var box := BoundingBox(currentCoords);
      match box
      case EmptyRingError => r := RingValueError;
      case Framed(e) => r := Drawn(outline, e);
    }
  }
}
