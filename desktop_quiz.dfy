/** The desktop quiz widget (main.py, `CentralWidget`): the list of
    (key, name) pairs loaded from the names file, the map image for each key,
    the index of the current country and the reveal/next toggle. Widgets,
    layouts and pixmaps are not modelled; the flag widget is reduced to the
    pair it shows and the name label to its text. */
module DesktopQuiz {
  import opened Base

  /** `[(key.lower(), value) for key, value in names_dict.items()]`: one pair
      per entry of the names file, in file order, with the key lower-cased. */
  function LoadCountryNames(entries: seq<(string, string)>): (names: seq<(string, string)>)
    ensures |names| == |entries|
    ensures forall i | 0 <= i < |names| ::
              names[i].1 == entries[i].1 && Upper(names[i].0) == Upper(entries[i].0)
    ensures forall i | 0 <= i < |names| :: forall c | c in names[i].0 :: !IsUpperLetter(c)
  {
    seq(|entries|, i requires 0 <= i < |entries| => (Lower(entries[i].0), entries[i].1))
  }

  /** `os.path.basename(path).startswith(key)`. */
  predicate NamedFor(key: string, path: string) {
    key <= Basename(path)
  }

  /** Index of the first path, in list order, whose file name starts with
      the key. */
  function FirstMapPath(key: string, paths: seq<string>): (r: Option<nat>)
    ensures r.Some? ==> r.value < |paths| && NamedFor(key, paths[r.value])
    ensures r.Some? ==> forall j | 0 <= j < r.value :: !NamedFor(key, paths[j])
    ensures r.None? ==> forall j | 0 <= j < |paths| :: !NamedFor(key, paths[j])
  {
    if paths == [] then None
    else if NamedFor(key, paths[0]) then Some(0)
    else
      match FirstMapPath(key, paths[1..])
      case None =>
        assert forall j | 1 <= j < |paths| :: paths[j] == paths[1..][j - 1];
        None
      case Some(j) =>
        assert forall m | 1 <= m <= j + 1 :: paths[m] == paths[1..][m - 1];
        Some(j + 1)
  }

  /** FirstMapPath is determined by where the first match sits. */
  lemma FirstMapPathIsFirst(key: string, paths: seq<string>, j: nat)
    requires j <= |paths|
    requires forall m | 0 <= m < j :: !NamedFor(key, paths[m])
    requires j < |paths| ==> NamedFor(key, paths[j])
    ensures FirstMapPath(key, paths) == if j < |paths| then Some(j) else None
  {
    var r := FirstMapPath(key, paths);
    if r.Some? {
      assert !(r.value < j) && !(j < r.value);
    }
  }

  /** The inner `for path in map_paths: ... break` loop. */
  method FindMapPath(key: string, paths: seq<string>) returns (r: Option<nat>)
    ensures r == FirstMapPath(key, paths)
  {
    var j := 0;
    while j < |paths|
      invariant 0 <= j <= |paths|
      invariant forall m | 0 <= m < j :: !NamedFor(key, paths[m])
    {
      if NamedFor(key, paths[j]) {
        FirstMapPathIsFirst(key, paths, j);
        return Some(j);
      }
      j := j + 1;
    }
    FirstMapPathIsFirst(key, paths, j);
    r := None;
  }

  predicate HasKey(names: seq<(string, string)>, key: string) {
    exists i | 0 <= i < |names| :: names[i].0 == key
  }

  /** Each key of the names maps to its first matching path; keys without
      one are absent. */
  ghost predicate MapsFor(maps: map<string, string>, names: seq<(string, string)>, paths: seq<string>) {
    && (forall k :: k in maps <==> HasKey(names, k) && FirstMapPath(k, paths).Some?)
    && (forall k | k in maps :: maps[k] == paths[FirstMapPath(k, paths).value])
  }

  /** One more key handled by the loop. */
  lemma MapsForSnoc(maps: map<string, string>, names: seq<(string, string)>, i: nat, paths: seq<string>)
    requires i < |names| && MapsFor(maps, names[..i], paths)
    ensures var key := names[i].0;
            var f := FirstMapPath(key, paths);
            MapsFor(if f.Some? then maps[key := paths[f.value]] else maps, names[..i + 1], paths)
  {
    var key := names[i].0;
    var f := FirstMapPath(key, paths);
    var maps' := if f.Some? then maps[key := paths[f.value]] else maps;
    forall k ensures HasKey(names[..i + 1], k) <==> HasKey(names[..i], k) || k == key {
      if HasKey(names[..i], k) {
        var m :| 0 <= m < i && names[..i][m].0 == k;
        assert names[..i + 1][m].0 == k;
      }
      if HasKey(names[..i + 1], k) {
        var m :| 0 <= m < i + 1 && names[..i + 1][m].0 == k;
        if m < i {
          assert names[..i][m].0 == k;
        }
      }
      assert names[..i + 1][i].0 == key;
    }
  }

  /** `load_map_paths`: for each key, the first matching path; keys without
      a matching path are absent. */
  method LoadMapPaths(names: seq<(string, string)>, paths: seq<string>) returns (maps: map<string, string>)
    ensures forall k :: k in maps <==> HasKey(names, k) && FirstMapPath(k, paths).Some?
    ensures forall k | k in maps :: maps[k] == paths[FirstMapPath(k, paths).value]
  {
    maps := map[];
    var i := 0;
    assert names[..0] == [];
    while i < |names|
      invariant 0 <= i <= |names|
      invariant MapsFor(maps, names[..i], paths)
    {
      var key := names[i].0;
      var found := FindMapPath(key, paths);
      MapsForSnoc(maps, names, i, paths);
      if found.Some? {
        maps := maps[key := paths[found.value]];
      }
      i := i + 1;
    }
    assert names[..i] == names;
  }

  // ---------------------------------------------------------------------
  // The reveal / next / remove state machine
  // ---------------------------------------------------------------------

  /** The widget's state: the remaining (key, name) pairs, `country_idx`,
      `reveal_mode` (true while the name is hidden and the button reads
      "Reveal"), the pair on the flag widget and the name label's text. */
  datatype Desk = Desk(names: seq<(string, string)>, idx: nat, revealMode: bool,
                       shown: (string, string), labelText: string)

  /** What `remove_country_from_list` ends with. */
  datatype RemoveOutcome = Skipped | Removed | PopOutOfRange

  /** `get_random_country` followed by `update_flag_widget`: the drawn index
      (standing in for `random.randint`) becomes `country_idx` and its pair
      goes on the flag widget. The flag path is the key plus ".png", and
      `set_flag_path` returns early for an unchanged path, so a drawn pair
      with the key already shown leaves the old name on the widget. */
  function Draw(d: Desk, draw: nat): (d': Desk)
    requires draw < |d.names|
    ensures d'.idx == draw && d'.shown.0 == d.names[draw].0
    ensures d.names[draw].0 != d.shown.0 ==> d'.shown == d.names[draw]
    ensures d.names[draw].0 == d.shown.0 ==> d'.shown == d.shown
    ensures d'.names == d.names && d'.revealMode == d.revealMode && d'.labelText == d.labelText
  {
    d.(idx := draw, shown := if d.names[draw].0 == d.shown.0 then d.shown else d.names[draw])
  }

  /** `reveal_country_name`: in reveal mode the name on the flag widget is
      shown; otherwise a new country is drawn and the label goes back to "?". */
  function RevealStep(d: Desk, draw: nat): Desk
    requires !d.revealMode ==> draw < |d.names|
  {
    if d.revealMode then d.(revealMode := false, labelText := d.shown.1)
    else Draw(d, draw).(revealMode := true, labelText := "?")
  }

  /** Every call flips the mode. Revealing keeps the list, the index and the
      flag; "next" draws a new index into the same list. */
  lemma RevealStepToggles(d: Desk, draw: nat)
    requires !d.revealMode ==> draw < |d.names|
    ensures RevealStep(d, draw).revealMode == !d.revealMode
    ensures RevealStep(d, draw).names == d.names
    ensures d.revealMode ==> RevealStep(d, draw).idx == d.idx &&
                             RevealStep(d, draw).shown == d.shown &&
                             RevealStep(d, draw).labelText == d.shown.1
    ensures !d.revealMode ==> RevealStep(d, draw).idx == draw &&
                              RevealStep(d, draw).shown == Draw(d, draw).shown &&
                              RevealStep(d, draw).labelText == "?"
  {
  }

  /** `remove_country_from_list` as written: nothing happens while at most
      one country is left; otherwise `pop(country_idx)` (an IndexError when
      the index is past the end) and then `reveal_country_name`. */
  function RemoveStep(d: Desk, draw: nat): (Desk, RemoveOutcome)
    requires |d.names| > 1 && d.idx < |d.names| && !d.revealMode ==> draw < |d.names| - 1
  {
    if |d.names| <= 1 then (d, Skipped)
    else if d.idx >= |d.names| then (d, PopOutOfRange)
    else
      var popped := d.(names := d.names[..d.idx] + d.names[d.idx + 1..]);
      (RevealStep(popped, draw), Removed)
  }

  /** The list never drops below one country through removal, and a removal
      takes out exactly the element at `country_idx`, the others keeping
      their order. */
  lemma RemoveStepRemovesAtIndex(d: Desk, draw: nat)
    requires |d.names| > 1 && d.idx < |d.names| && !d.revealMode ==> draw < |d.names| - 1
    ensures |d.names| <= 1 ==> RemoveStep(d, draw) == (d, Skipped)
    ensures RemoveStep(d, draw).1.Removed? <==> |d.names| > 1 && d.idx < |d.names|
    ensures RemoveStep(d, draw).1.Removed? ==>
              var names' := RemoveStep(d, draw).0.names;
              |names'| == |d.names| - 1 >= 1 &&
              (forall j | 0 <= j < d.idx :: names'[j] == d.names[j]) &&
              (forall j | d.idx <= j < |names'| :: names'[j] == d.names[j + 1])
    ensures !RemoveStep(d, draw).1.Removed? ==> RemoveStep(d, draw).0 == d
  {
  }

  /** Removing while revealed leads into "next": the following country is
      drawn from the shortened list and the name is hidden again. */
  lemma RemoveWhileRevealedDrawsNext(d: Desk, draw: nat)
    requires !d.revealMode && 1 < |d.names| && d.idx < |d.names| && draw < |d.names| - 1
    ensures var (d', _) := RemoveStep(d, draw);
            d'.revealMode && d'.idx == draw && d'.shown.0 == d'.names[draw].0 &&
            d'.names == d.names[..d.idx] + d.names[d.idx + 1..] && d'.labelText == "?"
  {
  }

  /** What the as-written widget keeps true: at least one country, the index
      at most one past the end, and inside the list whenever the name is
      hidden. */
  predicate DeskInvariant(d: Desk) {
    |d.names| >= 1 && d.idx <= |d.names| && (d.revealMode ==> d.idx < |d.names|)
  }

  lemma {:induction false} DeskInvariantPreserved(d: Desk, draw: nat)
    requires DeskInvariant(d)
    requires !d.revealMode ==> draw < |d.names|
    ensures DeskInvariant(RevealStep(d, draw))
    ensures (|d.names| > 1 && d.idx < |d.names| && !d.revealMode ==> draw < |d.names| - 1) ==>
              DeskInvariant(RemoveStep(d, draw).0)
  {
    if |d.names| > 1 && d.idx < |d.names| {
      var popped := d.(names := d.names[..d.idx] + d.names[d.idx + 1..]);
      assert |popped.names| == |d.names| - 1;
    }
  }

  /** The removal fault: with "c" on screen and the name still hidden, the
      Backspace shortcut clicks the hidden Remove button; "c" is popped, the
      reveal branch runs with the stale index 2, and the next removal pops
      index 2 of a two-element list. */
  lemma StaleIndexAfterHiddenRemove()
    ensures var d0 := Desk([("aa", "A"), ("bb", "B"), ("cc", "C")], 2, true, ("cc", "C"), "?");
            var (d1, o1) := RemoveStep(d0, 0);
            var (d2, o2) := RemoveStep(d1, 0);
            o1 == Removed && d1.idx == |d1.names| && d1.labelText == "C" && o2 == PopOutOfRange
  {
  }

  /** Two entries whose keys agree after lower-casing share a flag path:
      drawing the second after the first keeps the first name on the flag,
      and revealing shows that name. */
  lemma SamePathKeepsShownName()
    ensures var d0 := Desk([("us", "United States"), ("us", "USA")], 0, false, ("us", "United States"), "United States");
            var d1 := RevealStep(d0, 1);
            var d2 := RevealStep(d1, 0);
            d1.idx == 1 && d1.shown.1 == "United States" && d2.labelText == "United States"
  {
  }

  /** `remove_country_from_list` as evidently intended: removal happens only
      while the name is revealed (the only time the Remove button is
      visible), so it always leads into "next". */
  function RemoveStepRevealedOnly(d: Desk, draw: nat): (Desk, RemoveOutcome)
    requires |d.names| > 1 && d.idx < |d.names| && !d.revealMode ==> draw < |d.names| - 1
  {
    if |d.names| <= 1 || d.revealMode then (d, Skipped)
    else if d.idx >= |d.names| then (d, PopOutOfRange)
    else
      var popped := d.(names := d.names[..d.idx] + d.names[d.idx + 1..]);
      (RevealStep(popped, draw), Removed)
  }

  /** The intended invariant: the index always points into the list at a
      pair with the key of the flag on screen. */
  predicate OnScreen(d: Desk) {
    |d.names| >= 1 && d.idx < |d.names| && d.shown.0 == d.names[d.idx].0
  }

  /** With removal limited to the revealed state, every step keeps the index
      on the country on screen, so the removed country is always the one
      the player saw and `pop` never fails. */
  lemma {:induction false} RevealedOnlyKeepsIndexOnScreen(d: Desk, draw: nat)
    requires OnScreen(d)
    requires !d.revealMode ==> draw < |d.names|
    ensures OnScreen(RevealStep(d, draw))
    ensures (|d.names| > 1 && !d.revealMode ==> draw < |d.names| - 1) ==>
              OnScreen(RemoveStepRevealedOnly(d, draw).0) &&
              RemoveStepRevealedOnly(d, draw).1 != PopOutOfRange &&
              (RemoveStepRevealedOnly(d, draw).1.Removed? ==>
                 multiset(RemoveStepRevealedOnly(d, draw).0.names) == multiset(d.names) - multiset{d.names[d.idx]} &&
                 d.names[d.idx].0 == d.shown.0)
  {
    if |d.names| > 1 && !d.revealMode {
      var popped := d.names[..d.idx] + d.names[d.idx + 1..];
      assert d.names == d.names[..d.idx] + [d.names[d.idx]] + d.names[d.idx + 1..];
      assert |popped| == |d.names| - 1;
    }
  }

  class CentralWidget {
    var countryNames: seq<(string, string)>
    var mapsDict: map<string, string>
    var countryIdx: nat
    var revealMode: bool
    var shown: (string, string)
    var nameLabel: string

    function State(): Desk
      reads this
    {
      Desk(countryNames, countryIdx, revealMode, shown, nameLabel)
    }

    /** The state-related part of `__init__`: load the names and map paths
        from the given file contents and draw the first country. An empty
        names file makes `random.randint(0, -1)` raise. */
    constructor (entries: seq<(string, string)>, mapPaths: seq<string>, draw: nat)
      requires draw < |entries|
      ensures countryNames == LoadCountryNames(entries)
      ensures forall k :: k in mapsDict <==> HasKey(countryNames, k) && FirstMapPath(k, mapPaths).Some?
      ensures forall k | k in mapsDict :: mapsDict[k] == mapPaths[FirstMapPath(k, mapPaths).value]
      ensures countryIdx == draw && shown == countryNames[draw]
      ensures revealMode && nameLabel == "?"
      ensures OnScreen(State())
    {
      revealMode := true;
      countryNames := LoadCountryNames(entries);
      var maps := LoadMapPaths(LoadCountryNames(entries), mapPaths);
      mapsDict := maps;
      countryIdx := draw;
      shown := LoadCountryNames(entries)[draw];
      nameLabel := "?";
    }

    /** `get_random_country`. */
    method GetRandomCountry(draw: nat) returns (fileName: string, name: string, idx: nat)
      requires draw < |countryNames|
      modifies this`countryIdx
      ensures countryIdx == idx == draw && (fileName, name) == countryNames[draw]
    {
      idx := draw;
      fileName, name := countryNames[idx].0, countryNames[idx].1;
      countryIdx := idx;
    }

    /** `reveal_country_name`. */
    method RevealCountryName(draw: nat)
      requires !revealMode ==> draw < |countryNames|
      modifies this
      ensures State() == RevealStep(old(State()), draw)
      ensures old(OnScreen(State())) ==> OnScreen(State())
      ensures mapsDict == old(mapsDict)
    {
      if revealMode {
        revealMode := false;
        nameLabel := shown.1;
      } else {
        revealMode := true;
        var img, name, _ := GetRandomCountry(draw);
        if img != shown.0 {
          shown := (img, name);
        }
        nameLabel := "?";
      }
    }

    /** `remove_country_from_list`, with the removal limited to the
        revealed state in which its button is visible (see
        RemoveStepRevealedOnly): the index then always names the country on
        screen and `pop` never fails. */
    method RemoveCountryFromList(draw: nat) returns (outcome: RemoveOutcome)
      requires |countryNames| > 1 && countryIdx < |countryNames| && !revealMode ==> draw < |countryNames| - 1
      modifies this
      ensures (State(), outcome) == RemoveStepRevealedOnly(old(State()), draw)
      ensures old(OnScreen(State())) ==> OnScreen(State()) && outcome != PopOutOfRange
      ensures mapsDict == old(mapsDict)
    {
      ghost var d := State();
      if |countryNames| <= 1 || revealMode {
        return Skipped;
      }
      if countryIdx >= |countryNames| {
        return PopOutOfRange;
      }
      countryNames := countryNames[..countryIdx] + countryNames[countryIdx + 1..];
      RevealCountryName(draw);
      outcome := Removed;
      if OnScreen(d) {
        RevealedOnlyKeepsIndexOnScreen(d, draw);
      }
    }
  }
}
