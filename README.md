# Country quiz: a verified model of its core

The repository is a flag-and-map quiz with three front ends:

- a Flask web app (`app.py`), which keeps the player's progress in the
  session;
- a PyQt desktop widget (`main.py`), which shows the country's map as a
  static image;
- a Kivy app (`kivy.py`), which is not part of this model.

`folium_map_widget.py` holds a standalone folium map widget. `main.py`
imports it (main.py:5) but never creates one. A helper script
(`download_wiki_img.py`) downloads map images from Wikipedia articles.

This project models the logic of the web app, the desktop widget, the
folium widget and the image helper, and proves its properties.

- **Outline lookup and framing** (modules `Geometry` and `Outlines`):
  - finding a country's GeoJSON feature by its ISO 3166-1 alpha-2 code;
  - wrapping a `Polygon` so that it looks like a `MultiPolygon`;
  - shifting longitudes so that Russia, New Zealand, Fiji and the United
    States are not split at the antimeridian;
  - computing the bounding box that the map is fitted to.

  Coordinates are reals. Python's floored `%` is written out as `Mod360`.
  The web app rewrites the shifted points into the shared GeoJSON data.
  The model keeps that data in a class, `OutlineStore`, and its
  `GetCountryCoords` returns the rewritten feature list as part of its
  state.
- **The web session** (module `WebQuiz`): the routes `init_session`,
  `/next`, `/reveal` and `/remove` over the session keys
  `remaining_countries` and `current_country`. `random.choice` becomes an
  index that the caller supplies. `/reveal` uses the corrected map page
  `GenerateMapChecked`, not the as-written `GenerateMap` (see "## Findings").
- **The desktop widget** (module `DesktopQuiz`):
  - loading the (key, name) pairs;
  - the first-match search for each key's map image;
  - the reveal/next toggle and removal, as a pure step function on a `Desk`
    value and as the class `CentralWidget`, whose methods are proved
    against those step functions. `random.randint` becomes an index that
    the caller supplies. `RemoveCountryFromList` implements the corrected
    removal `RemoveStepRevealedOnly`, which skips a removal while the name
    is hidden; the as-written `RemoveStep` performs it (see "## Findings").
- **The map widget** (module `MapWidget`): the lookup, wrap, shift and
  bounding-box part of `create_map`. The wrapped coordinates are shared
  with the outline handed to folium.
- **The image downloader** (module `WikiImages`):
  - `sanitize_filename`;
  - the title taken from a `/wiki/` link;
  - the keyword filter that decides which files are downloaded.

  Module `Base` holds the string helpers shared by these modules: ASCII case
  mapping, substring search and `os.path.basename`.

In exact arithmetic the shift is idempotent. `x - 340`, taken modulo 360,
minus 20 (or minus 380) always lands in the half-open window [-20, 340)
(or [-380, -20)). It is the only value in that window that is congruent to
`x` modulo 360, so shifting twice equals shifting once
(`Geometry.ShiftLonIdempotent`). So a later lookup of the same country,
made after the first has finished, gives the same answer on the rewritten
data (`Outlines.CountryCoordsRepeatable`). Requests are modelled one at a
time (see "## Left out").
The program shifts floats, where `x - 340` and `% 360` round. The model uses
exact reals, so these facts hold for the model and not necessarily bit for
bit for the program (see "## Left out").

## Model

| member | source | states |
|---|---|---|
| Base.UpperEqIffLowerEq | app.py:27 | Comparing two codes upper-cased is the same as comparing them lower-cased, in both directions. |
| Base.IsSubstringIffOccurs | download_wiki_img.py:96 | Python's `in` on strings holds exactly when the word occurs at some index of the string. |
| Base.BasenameStart | main.py:118 | POSIX `os.path.basename` starts just after the last `/` (or at 0 when there is none), and no `/` occurs after that point. |
| Base.BasenameHasNoSlash | download_wiki_img.py:91 | The base name of any path contains no `/`. |
| Geometry.AsMultiPolygon | app.py:28-30 | A Polygon's rings become the single part of a MultiPolygon; a MultiPolygon's parts are kept as they are. |
| Geometry.WithCoords | app.py:28-33 | Writing coordinates back through the alias keeps the geometry's type, and reading them back through the wrapping gives exactly what was written. |
| Geometry.Mod360 | app.py:54 | Python's floored `% 360` lies in [0, 360) and is congruent to its argument modulo 360. |
| Geometry.ShiftLon | app.py:53-55 | One shifted longitude lies in the profile's window: [-380, -20) for the US, [-20, 340) for RU, NZ and FJ. |
| Geometry.ShiftLonCongruent | app.py:63-65 | The shift moves a longitude by a whole number of turns, so it names the same meridian. |
| Geometry.ShiftLonCharacterised | app.py:49-66 | A value is the shift of `lon` exactly when it lies in the window and is congruent to `lon`, in both directions. |
| Geometry.ShiftLonIdempotent | app.py:49-56 | Shifting a shifted longitude changes nothing. |
| Geometry.ShiftCoordsPointwise | app.py:59-66 | The shift keeps the shape of every part and ring and each latitude. Each longitude is replaced by its shift, which is congruent to it and lies in the window. |
| Geometry.ShiftCoordsIdempotent | app.py:32-35 | Applying a whole-outline shift twice gives the same as applying it once. |
| Geometry.ShiftLongitudes | app.py:49-66 | The triple loop of `shift_usa`/`shift_russia` produces exactly the pointwise shift of every point. |
| Geometry.ExtentOfIsTight | app.py:37-44 | The running min/max over a list of points has no box exactly when the list is empty. Otherwise every point lies in the box, and each of the four bounds is attained by some point. |
| Geometry.FlattenMembers | app.py:39-42 | A point is among the flattened points exactly when it sits in some ring of some part. |
| Geometry.FrameBoxEnclosesAll | app.py:37-45 | For an outline without empty rings, there is no box exactly when the outline has no points. Otherwise the box contains every point of every ring, and each of its four bounds is attained by a point of the outline. |
| Geometry.ScanRing | app.py:41-44 | Folding one ring into the running box gives the box of all points seen so far plus that ring. |
| Geometry.ScanPart | app.py:40-44 | Folding one part either raises for an empty ring or extends the box by exactly that part's points. |
| Geometry.BoundingBox | app.py:37-44 | The nested min/max loops compute exactly the frame box of the outline, the empty-ring error included. |
| Outlines.FirstMatch | app.py:26-27 | The result is the index of a feature whose code matches; every earlier feature does not match; with no result, no feature matches. |
| Outlines.FindFeature | app.py:26-27 | The search loop with its early exit returns the first matching feature. |
| Outlines.FirstMatchIsFirst | app.py:26-27 | Given an index before which nothing matches and at which a feature matches (or the end), the search returns exactly that index. |
| Outlines.FirstMatchOnlyReadsIsos | app.py:26-27 | The search depends only on the features' codes, so rewriting their coordinates does not change what it finds. |
| Outlines.FirstMatchIgnoresCase | app.py:27 | Two codes that are equal up to ASCII case find the same feature. |
| Outlines.LookupsAgreeOnUpperCaseData | folium_map_widget.py:23-26 | When every stored code is upper case, the widget's exact comparison with `code.upper()` finds the same feature as the web app's case-blind one. |
| Outlines.AppProfile | app.py:32-35 | The RU/NZ/FJ window is chosen exactly for those three codes in any case, and the US window exactly for "us". |
| Outlines.CountryCoordsFramed | app.py:24-46 | The lookup returns the empty list exactly for a code no feature carries. Otherwise the box encloses every returned point, and for the four shifted countries every returned longitude lies in the window. |
| Outlines.CountryCoordsRepeatable | app.py:24-46 | A later lookup of the same code, made after the first has finished, on the data the first one rewrote, returns the same result and rewrites nothing more. |
| Outlines.OutlineStore.constructor | app.py:19-21 | The store holds the loaded features. |
| Outlines.OutlineStore.GetCountryCoords | app.py:24-46 | The method returns the lookup result and leaves the stored features as the function `CountryCoords` describes, with the shifted points written back into the matched feature. |
| Outlines.GenerateMap | app.py:69-72 | As written, "Map not found" appears only for a found outline without parts, and an unknown code crashes. |
| Outlines.UnknownCodeCrashes | app.py:70 | Every code that no feature carries makes `generate_map` raise instead of showing "Map not found". |
| Outlines.UnknownCodeExample | app.py:70 | The concrete case: with only Germany loaded, the code "xx" crashes. |
| Outlines.GenerateMapChecked | app.py:71-72 | As intended, "Map not found" appears exactly for an unknown code or an outline without parts, and a drawn map is fitted to the computed box. |
| Outlines.UnknownCodeShowsNotFound | app.py:71-72 | With the check placed first, the page is "Map not found" exactly when the code is unknown or its outline has no parts. |
| MapWidget.WidgetProfile | folium_map_widget.py:32-35 | The RU/NZ/FJ shift is chosen exactly for those codes. The US shift is chosen exactly for the other codes whose lower-cased form is a substring of "us". |
| MapWidget.TwoLetterCodesShiftAlike | folium_map_widget.py:34 | For every two-letter code the widget's substring test chooses the same shift as the web app's equality test. |
| MapWidget.ShiftTestsExclusive | folium_map_widget.py:32-35 | No code selects both shifts, so a point is never shifted twice. |
| MapWidget.SingleLetterSelectsUsShift | folium_map_widget.py:34 | The one-letter code "s" selects the US shift. |
| MapWidget.WidgetFramingAliases | folium_map_widget.py:16-44 | The outline handed to folium carries exactly the shifted `current_coords`, and the box encloses all of them. An unknown code is the UnboundLocalError case and leaves `current_coords` unchanged. |
| MapWidget.MapWidget.constructor | folium_map_widget.py:11 | A new widget starts with no current coordinates. |
| MapWidget.MapWidget.CreateMap | folium_map_widget.py:16-44 | The result and the new `current_coords` are exactly the framing of the looked-up, wrapped and shifted outline. |
| WebQuiz.IndexOf | app.py:129 | The returned position holds the element, and the element does not occur before it. |
| WebQuiz.RemoveFirst | app.py:129 | `list.remove` drops exactly the first occurrence. The rest keeps its order, the length falls by one, and the multiset loses one copy. |
| WebQuiz.RemoveFirstFromDistinct | app.py:128-129 | In a list without repeats, the removed country is gone, no repeats appear, and every other country stays. |
| WebQuiz.QuizSession.constructor | app.py:15-17 | A fresh session holds nothing. The key list holds every country exactly once, and every key has a name. |
| WebQuiz.QuizSession.InitSession | app.py:85-88 | The session is filled with all keys and no current country only when it was empty; otherwise it is left as it was. |
| WebQuiz.QuizSession.NextCountry | app.py:97-109 | The completion page is shown exactly when nothing remains. Otherwise the drawn country becomes current, and its name and the remaining count are shown. |
| WebQuiz.QuizSession.Reveal | app.py:112-121 | With no current country the route redirects and the outline data is left alone. Otherwise the page shows the checked map outcome for the looked-up outline (see Findings) and the country's name, and the outline data is rewritten as the lookup specifies. |
| WebQuiz.QuizSession.Remove | app.py:124-131 | A current country that is still in the pool leaves it (first occurrence only), and otherwise the pool is unchanged. Afterwards the current country is never in the pool, and the pool stays duplicate-free. |
| DesktopQuiz.LoadCountryNames | main.py:108-111 | One pair per file entry, in file order. Each name is unchanged, each key is equal to the file's key up to case and contains no upper-case letter. |
| DesktopQuiz.FirstMapPath | main.py:117-121 | The result is the first path whose base name starts with the key; with no result, no path's base name starts with it. |
| DesktopQuiz.FindMapPath | main.py:117-121 | The inner loop with its `break` finds exactly that first path. |
| DesktopQuiz.LoadMapPaths | main.py:113-122 | A key is in the dictionary exactly when some country has it and some map path matches it, and it maps to the first matching path. |
| DesktopQuiz.Draw | main.py:94-103 | Drawing sets `country_idx` to the drawn index, and the flag then shows that pair's key. A pair with a new key replaces the flag's pair. A pair with the key already shown leaves the old name, because `set_flag_path` (flag_widget.py:30-31) returns early for an unchanged path. Nothing else changes. |
| DesktopQuiz.RevealStepToggles | main.py:72-86 | Each call flips the mode and keeps the list. Revealing shows the name on the flag and keeps the index; "next" draws a new index, updates the flag as `Draw` does and resets the label to "?". |
| DesktopQuiz.RemoveStepRemovesAtIndex | main.py:88-92 | With at most one country nothing happens. A removal happens exactly when the index is in range, takes out only the pair at `country_idx` and keeps the others in order. |
| DesktopQuiz.RemoveWhileRevealedDrawsNext | main.py:88-92 | Removing while the name is revealed leads into "next": a new index into the shortened list, whose key the flag shows, with the name hidden again. |
| DesktopQuiz.DeskInvariantPreserved | main.py:72-92 | As written, for every draw `randint` can return, both steps keep at least one country. The index stays at most one past the end, and inside the list while the name is hidden. |
| DesktopQuiz.StaleIndexAfterHiddenRemove | main.py:88-92 | As written, a removal while the name is hidden leaves the index past the end, and the next removal fails in `pop`. |
| DesktopQuiz.RevealedOnlyKeepsIndexOnScreen | main.py:88-92 | With removal limited to the revealed state, every step with a draw `randint` can return keeps the index on a pair with the key of the flag on screen. `pop` never fails, and a removal takes out exactly the pair at the index, which has that key. |
| DesktopQuiz.CentralWidget.constructor | main.py:15-30 | The widget loads the names and the map dictionary, with each key mapped to its first matching path. It draws the first country, hides its name and starts with the index on the shown country. |
| DesktopQuiz.CentralWidget.GetRandomCountry | main.py:94-98 | The method returns the drawn pair and its index, and stores the index. |
| DesktopQuiz.CentralWidget.RevealCountryName | main.py:72-86 | The new state is the reveal step of the old one, including the same-path early return of the flag widget. The map dictionary is untouched, and the index stays on a pair with the shown key. |
| DesktopQuiz.SamePathKeepsShownName | flag_widget.py:28-33 | Two entries whose keys agree after lower-casing share a flag path: drawing the second after the first keeps the first name on the flag, and revealing shows that name. |
| DesktopQuiz.CentralWidget.RemoveCountryFromList | main.py:88-92 | The new state is the revealed-only removal step (see Findings). The index stays on the shown country and `pop` never fails. |
| WikiImages.Unquote | download_wiki_img.py:45 | Decoding never lengthens a name. A name without `%` is unchanged, and a decoding that keeps the length changes nothing. |
| WikiImages.ReplaceDisallowed | download_wiki_img.py:46 | Same length. Every character is in `[a-zA-Z0-9._-]`; allowed characters are kept in place, and every other one becomes `_`. |
| WikiImages.ReplaceDisallowedKeepsAllowed | download_wiki_img.py:46 | A name made only of allowed characters is left unchanged. |
| WikiImages.Sanitize | download_wiki_img.py:44-47 | The result is as long as the decoded name and no longer than the input. It uses only allowed characters, so it contains no `/` and no `%`. |
| WikiImages.SanitizeIdempotent | download_wiki_img.py:44-47 | Sanitising a sanitised name changes nothing. |
| WikiImages.WantedIffOccurs | download_wiki_img.py:94-96 | A file is wanted exactly when one of "projection", "map" or "location" occurs in its name at some index. |
| WikiImages.KeywordSurvivesSanitize | download_wiki_img.py:91-96 | A keyword occurs at an index of the sanitised name exactly when it occurs there in the decoded name. |
| WikiImages.WantedIgnoresSanitize | download_wiki_img.py:91-96 | The keyword filter on the sanitised name decides the same as on the decoded base name. |
| WikiImages.NotWantedWithoutKeywordLetters | download_wiki_img.py:94-96 | A name without the letters 'j', 'm' and 'c' is never wanted. |
| WikiImages.WantedIsCaseSensitive | download_wiki_img.py:96 | "Map.svg" is skipped while "map.svg" is downloaded. |
| WikiImages.DownloadStaysInDirectory | download_wiki_img.py:91-98 | Every name chosen for download contains no `/`, has at least three characters and is neither "." nor "..", so it stays inside the save directory. |
| WikiImages.FindFirst | download_wiki_img.py:82 | The search returns the first index where the separator occurs; with no result, the separator occurs nowhere. |
| WikiImages.LastPieceIsSuffix | download_wiki_img.py:82 | `split(sep)[-1]` is a suffix of the link. |
| WikiImages.LastPieceFollowsSeparator | download_wiki_img.py:82 | The last piece contains no separator. When the link contains one, the piece sits right after a separator. |
| WikiImages.FileTitleWithoutMarker | download_wiki_img.py:82-83 | A link without "/wiki/" yields its whole text, decoded. |
| WikiImages.FileTitleScansFromLeft | download_wiki_img.py:82 | Splitting scans from the left without overlaps: "/wiki/wiki/" yields "wiki/", although "/wiki/" also occurs at index 5. |

## Left out

- Rendering is not modelled:
  - the Flask templates and redirects, which are summarised as page values;
  - the PyQt widgets, layouts, buttons and pixmaps;
  - the folium map, polygons, markers and plugins;
  - the centroid lookup in `create_map` (folium_map_widget.py:46-50), which only positions the map.
- File and JSON loading are parameters. The names file, the GeoJSON features and the `glob` result are given to the constructors.
- The `COUNTRIES` dictionary, with its lower-cased keys, is given to the session constructor.
- The session cookie's serialisation and `session.modified` are not modelled.
- Requests are modelled one at a time. `app.run` (app.py:135) serves requests on threads, and overlapping requests are not modelled, neither on the shared `GEOJSON` point lists (two interleaved shifts of the same point can leave it outside the window) nor on the session cookie.
- `random.choice` and `random.randint` are replaced by an index that the caller chooses.
- Floating point is not modelled. Longitudes are exact reals, so rounding in `% 360` and the infinities used as initial bounds are not modelled. A third coordinate (altitude) is not modelled.
- Case mapping covers ASCII letters only. Python's Unicode `upper()` and `lower()` are not modelled.
- WikiImages.Unquote decodes each `%XX` to the character with that code. It does not model UTF-8 decoding of multi-byte sequences. A `%` not followed by two hex digits is kept, as `unquote` does.
- WikiImages.LastPieceIsSuffix: Python's `str.split` is modelled only as far as its last piece, the only piece the script reads.
- The network side of `download_wiki_img.py` is not modelled:
  - `get_fullres_image_url`, `download_file`, `requests` and BeautifulSoup;
  - the `/wiki/File:` link collection;
  - `os.makedirs` and the writes and sleeps.
- `kivy.py`, `convert_imgs.py` and `download_ctry_maps.py` are not part of this model. Of `flag_widget.py`, only the pair shown and the early return for an unchanged flag path (flag_widget.py:30-31) are modelled; the pixmap handling is not.
- Paths are modelled as POSIX paths: `os.path.basename` splits at `/` only. The Windows separator `\`, which `join` (main.py:20) and `glob` (main.py:114) produce on Windows, is not modelled, so on Windows the map-path search of the model differs from the program's.
- Several exceptions are not modelled:
  - the `maps_dict[ctry_img]` KeyError for a country without a map image, in `__init__` (main.py:32) and in `update_map_widget` (main.py:106);
  - the TypeError of `MapWidget.__init__`, which calls `create_map()` without its argument (folium_map_widget.py:12);
  - PyQt's handling of exceptions raised inside slots.
- DesktopQuiz.CentralWidget.constructor requires a non-empty names file, because the source's `random.randint(0, -1)` raises there.
- Aliasing is modelled only in part. The nested lists that Python mutates in place are modelled as values rebuilt point by point. The sharing between the shifted list and the stored feature is modelled by writing the rebuilt coordinates back into the feature (`Geometry.WithCoords`).

## Findings

| source | as written | input that shows it | evidently intended | confidence | as-written member | corrected member |
|---|---|---|---|---|---|---|
| app.py:70 | `get_country_coords` returns `[]` for an unknown code. `generate_map` unpacks that into two names before it tests `not coords_list`, so it raises a ValueError. | Only Germany (`DE`) loaded, code `"xx"` | Test for a missing outline before unpacking, and show "Map not found" | not executed | Outlines.UnknownCodeExample | Outlines.UnknownCodeShowsNotFound |
| main.py:88-92 | The Backspace shortcut (main.py:67-70) clicks the Remove button even while it is hidden. The country is popped, then the reveal branch runs and keeps the old `country_idx`, and the next removal's `pop` raises an IndexError. | Pairs `aa`, `bb`, `cc`, index 2, name hidden: Backspace twice | Remove only while the name is revealed (the only time the button is visible), so the index always names the country on screen | not executed | DesktopQuiz.StaleIndexAfterHiddenRemove | DesktopQuiz.RevealedOnlyKeepsIndexOnScreen |
