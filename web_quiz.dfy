/** The per-user quiz state of the web app (app.py): the session keys
    `remaining_countries` and `current_country`, and what the routes
    `/next`, `/reveal` and `/remove` do to them. Page rendering is not
    modelled; each route returns a summary of what it would show. */
module WebQuiz {
  import opened Base
  import opened Geometry
  import opened Outlines

  /** Position of the first occurrence of `x`. */
  function IndexOf<T(==)>(s: seq<T>, x: T): (i: nat)
    requires x in s
    ensures i < |s| && s[i] == x && x !in s[..i]
  {
    if s[0] == x then 0
    else
      var i := IndexOf(s[1..], x) + 1;
      assert s[..i] == [s[0]] + s[1..][..i - 1];
      i
  }

  /** `list.remove(x)`: the first occurrence of `x` is dropped and the other
      elements keep their order. */
  function RemoveFirst<T(==)>(s: seq<T>, x: T): (r: seq<T>)
    requires x in s
    ensures r == s[..IndexOf(s, x)] + s[IndexOf(s, x) + 1..]
    ensures |r| == |s| - 1
    ensures multiset(r) == multiset(s) - multiset{x}
  {
    var i := IndexOf(s, x);
    assert s == s[..i] + [x] + s[i + 1..];
    s[..i] + s[i + 1..]
  }

  /** The element at position `k` after the removal. */
  lemma RemoveFirstAt<T>(s: seq<T>, x: T, k: nat)
    requires x in s && k < |s| - 1
    ensures RemoveFirst(s, x)[k] == s[if k < IndexOf(s, x) then k else k + 1]
  {
    var i := IndexOf(s, x);
    var r := RemoveFirst(s, x);
    if k < i {
      assert r[k] == s[..i][k];
    } else {
      assert r[k] == s[i + 1..][k - i];
    }
  }

  /** In a list without repeats, removing an element removes it entirely
      and keeps the list free of repeats. */
  lemma RemoveFirstFromDistinct<T>(s: seq<T>, x: T)
    requires x in s && Distinct(s)
    ensures x !in RemoveFirst(s, x)
    ensures Distinct(RemoveFirst(s, x))
    ensures forall y :: y in RemoveFirst(s, x) <==> y in s && y != x
  {
    var i := IndexOf(s, x);
    var r := RemoveFirst(s, x);
    forall a, b | 0 <= a < b < |r| ensures r[a] != r[b] {
      RemoveFirstAt(s, x, a);
      RemoveFirstAt(s, x, b);
    }
    forall y ensures y in r <==> y in s && y != x {
      if y in r {
        var k :| 0 <= k < |r| && r[k] == y;
        RemoveFirstAt(s, x, k);
      }
      if y in s && y != x {
        var k :| 0 <= k < |s| && s[k] == y;
        var k' := if k < i then k else k - 1;
        RemoveFirstAt(s, x, k');
      }
    }
  }

  /** Python truthiness of `session.get("current_country")`: neither None
      nor the empty string. */
  predicate Truthy(code: Option<string>) {
    code.Some? && code.value != ""
  }

  /** What `/next` shows. */
  datatype NextPage = AllCompleted | Question(code: string, name: string, remainingCount: nat)

  /** What `/reveal` does: redirect to `/next`, or show the map outcome and
      the country's name. */
  datatype RevealPage = RedirectToNext | Revealed(mapPage: MapPage, name: string)

  class QuizSession {
    /** `COUNTRIES` and `list(COUNTRIES.keys())`. */
    const countries: map<string, string>
    const countryKeys: seq<string>

    /** Whether the session holds `remaining_countries` at all. */
    var initialized: bool
    var remaining: seq<string>
    var current: Option<string>

    ghost predicate Valid()
      reads this
    {
      && Distinct(countryKeys)
      && (forall k | k in countryKeys :: k in countries)
      && (forall k | k in countries :: k in countryKeys)
      && (initialized ==> Distinct(remaining) && forall k | k in remaining :: k in countryKeys)
      && (!initialized ==> current == None)
      && (current.Some? ==> current.value in countries)
    }

    /** The list `init_session` leaves in the session. */
    function Pool(): seq<string>
      reads this
    {
      if initialized then remaining else countryKeys
    }

    /** A new, empty session. `keys` is `list(COUNTRIES.keys())`: every
        country once, each with its name. */
    constructor (names: map<string, string>, keys: seq<string>)
      requires Distinct(keys) && forall k | k in keys :: k in names
      requires forall k | k in names :: k in keys
      ensures Valid() && !initialized && countries == names && countryKeys == keys
    {
      countries, countryKeys := names, keys;
      initialized, remaining, current := false, [], None;
    }

    /** `init_session`: fills the session only when it is still empty. */
    method InitSession()
      requires Valid()
      modifies this
      ensures Valid() && initialized
      ensures remaining == old(Pool())
      ensures old(initialized) ==> remaining == old(remaining) && current == old(current)
      ensures !old(initialized) ==> remaining == countryKeys && current == None
    {
      if !initialized {
        initialized := true;
        remaining := countryKeys;
        current := None;
      }
    }

    /** `/next`: completion exactly when nothing remains; otherwise the
        country at the drawn index (standing in for `random.choice`) becomes
        the current one, and its name is found. */
    method NextCountry(draw: nat) returns (page: NextPage)
      requires Valid()
      requires Pool() != [] ==> draw < |Pool()|
      modifies this
      ensures Valid() && initialized && remaining == old(Pool())
      ensures page.AllCompleted? <==> remaining == []
      ensures page.AllCompleted? ==> current == old(current)
      ensures page.Question? ==>
                page.code == remaining[draw] && current == Some(page.code) &&
                page.code in countries && page.name == countries[page.code] &&
                page.remainingCount == |remaining|
    {
      InitSession();
      if remaining == [] {
        return AllCompleted;
      }
      var code := remaining[draw];
      current := Some(code);
      page := Question(code, countries[code], |remaining|);
    }

    /** `/reveal`: without a current country it redirects to `/next`;
        otherwise it frames the current country's outline (rewriting the
        shared outline data) and shows the map outcome with the name, an
        unknown outline showing "Map not found" (GenerateMapChecked). */
    method Reveal(store: OutlineStore) returns (page: RevealPage)
      requires Valid()
      modifies this, store
      ensures Valid() && initialized
      ensures remaining == old(Pool()) && current == old(current)
      ensures !Truthy(current) ==> page == RedirectToNext && store.features == old(store.features)
      ensures Truthy(current) ==>
                var (lookup, after) := CountryCoords(old(store.features), current.value);
                page == Revealed(GenerateMapChecked(lookup), countries[current.value]) &&
                store.features == after
    {
      InitSession();
      if !Truthy(current) {
        return RedirectToNext;
      }
      var code := current.value;
      var lookup := store.GetCountryCoords(code);
      page := Revealed(GenerateMapChecked(lookup), countries[code]);
    }

    /** `/remove`: the current country leaves the pool if it is in it;
        otherwise nothing changes. */
    method Remove()
      requires Valid()
      modifies this
      ensures Valid() && initialized && current == old(current)
      ensures Truthy(current) && current.value in old(Pool()) ==>
                remaining == RemoveFirst(old(Pool()), current.value)
      ensures !(Truthy(current) && current.value in old(Pool())) ==> remaining == old(Pool())
      ensures Truthy(current) ==> current.value !in remaining
    {
      InitSession();
      if Truthy(current) && current.value in remaining {
        RemoveFirstFromDistinct(remaining, current.value);
        remaining := RemoveFirst(remaining, current.value);
      }
    }
  }
}
