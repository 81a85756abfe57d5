/** The string handling of the map image downloader (download_wiki_img.py):
    the file title cut out of a `/wiki/File:` link, the sanitising of a
    downloaded file's name, and the keyword filter that decides whether the
    file is downloaded. The HTTP requests and file writes are not modelled. */
module WikiImages {
  import opened Base

  // ---------------------------------------------------------------------
  // Percent-decoding (`urllib.parse.unquote`)
  // ---------------------------------------------------------------------

  predicate IsHex(c: char) {
    '0' <= c <= '9' || 'a' <= c <= 'f' || 'A' <= c <= 'F'
  }

  function HexValue(c: char): (v: nat)
    requires IsHex(c)
    ensures v < 16
  {
    if '0' <= c <= '9' then c as nat - '0' as nat
    else if 'a' <= c <= 'f' then c as nat - 'a' as nat + 10
    else c as nat - 'A' as nat + 10
  }

  /** Whether a `%XX` escape starts at position `i`. */
  predicate EscapeAt(s: string, i: nat) {
    i + 2 < |s| && s[i] == '%' && IsHex(s[i + 1]) && IsHex(s[i + 2])
  }

  /** `unquote`: every `%` followed by two hex digits stands for the
      character with that code; any other `%` is kept as it is. A string
      without `%` is returned unchanged. */
  function Unquote(s: string): (r: string)
    ensures |r| <= |s|
    ensures '%' !in s ==> r == s
    ensures |r| == |s| ==> r == s
  {
    if s == [] then []
    else if EscapeAt(s, 0) then
      [(16 * HexValue(s[1]) + HexValue(s[2])) as char] + Unquote(s[3..])
    else
      assert '%' !in s ==> '%' !in s[1..];
      [s[0]] + Unquote(s[1..])
  }

  // ---------------------------------------------------------------------
  // sanitize_filename (download_wiki_img.py:44-47)
  // ---------------------------------------------------------------------

  /** The characters the pattern `[^a-zA-Z0-9._-]` leaves alone. */
  predicate AllowedChar(c: char) {
    'a' <= c <= 'z' || 'A' <= c <= 'Z' || '0' <= c <= '9' || c == '.' || c == '_' || c == '-'
  }

  predicate AllAllowed(s: string) {
    forall i | 0 <= i < |s| :: AllowedChar(s[i])
  }

  /** `re.sub(r"[^a-zA-Z0-9._-]", "_", name)`: a one-for-one replacement. */
  function ReplaceDisallowed(s: string): (r: string)
    ensures |r| == |s| && AllAllowed(r)
    ensures forall i | 0 <= i < |s| :: AllowedChar(s[i]) ==> r[i] == s[i]
    ensures forall i | 0 <= i < |s| :: !AllowedChar(s[i]) ==> r[i] == '_'
  {
    seq(|s|, i requires 0 <= i < |s| => if AllowedChar(s[i]) then s[i] else '_')
  }

  /** A string of allowed characters is left as it is. */
  lemma ReplaceDisallowedKeepsAllowed(s: string)
    requires AllAllowed(s)
    ensures ReplaceDisallowed(s) == s
  {
  }

  function Sanitize(name: string): (r: string)
    ensures |r| == |Unquote(name)| <= |name|
    ensures AllAllowed(r) && '%' !in r && '/' !in r
  {
    var r := ReplaceDisallowed(Unquote(name));
    assert forall i | 0 <= i < |r| :: r[i] != '%' && r[i] != '/';
    r
  }

  /** Sanitising a sanitised name changes nothing: it holds no `%` for the
      second decoding to act on and no character for the replacement. */
  lemma SanitizeIdempotent(name: string)
    ensures Sanitize(Sanitize(name)) == Sanitize(name)
  {
    var r := Sanitize(name);
    assert Unquote(r) == r;
    ReplaceDisallowedKeepsAllowed(r);
  }

  // ---------------------------------------------------------------------
  // The keyword filter (download_wiki_img.py:94-96)
  // ---------------------------------------------------------------------

  const Keywords: seq<string> := ["projection", "map", "location"]

  /** `any(word in filename for word in key_word)`: a case-sensitive
      substring test for each keyword. */
  predicate Wanted(filename: string) {
    exists w | w in Keywords :: IsSubstring(w, filename)
  }

  /** The filter holds exactly when some keyword occurs at some position. */
  lemma WantedIffOccurs(filename: string)
    ensures Wanted(filename) <==> exists w, i: nat :: w in Keywords && OccursAt(w, filename, i)
  {
    forall w ensures IsSubstring(w, filename) <==> exists i: nat :: OccursAt(w, filename, i) {
      IsSubstringIffOccurs(w, filename);
    }
  }

  /** A keyword sits at the same place in the sanitised name as in the
      decoded one: keywords are made of allowed characters and hold no
      `_`, so the replacement neither breaks nor creates an occurrence. */
  lemma KeywordSurvivesSanitize(name: string, w: string, i: nat)
    requires w in Keywords
    ensures OccursAt(w, Sanitize(name), i) <==> OccursAt(w, Unquote(name), i)
  {
    var u := Unquote(name);
    var r := Sanitize(name);
    assert AllAllowed(w) && '_' !in w;
    if i + |w| <= |u| {
      if OccursAt(w, u, i) {
        forall t | 0 <= t < |w| ensures r[i + t] == w[t] {
          assert u[i + t] == u[i..i + |w|][t];
        }
        assert r[i..i + |w|] == w;
      }
      if OccursAt(w, r, i) {
        forall t | 0 <= t < |w| ensures u[i + t] == w[t] {
          assert r[i + t] == r[i..i + |w|][t];
          assert w[t] != '_';
        }
        assert u[i..i + |w|] == w;
      }
    }
  }

  /** Whether a file is downloaded does not depend on the sanitising: its
      decoded name already decides it. */
  lemma WantedIgnoresSanitize(name: string)
    ensures Wanted(Sanitize(name)) <==> Wanted(Unquote(name))
  {
    WantedIffOccurs(Sanitize(name));
    WantedIffOccurs(Unquote(name));
    forall w, i: nat | w in Keywords
      ensures OccursAt(w, Sanitize(name), i) <==> OccursAt(w, Unquote(name), i)
    {
      KeywordSurvivesSanitize(name, w, i);
    }
  }

  /** Every character of an occurrence is a character of the string. */
  lemma OccurrenceChars(w: string, s: string, i: nat, t: nat)
    requires t < |w|
    ensures OccursAt(w, s, i) ==> w[t] in s
  {
    if OccursAt(w, s, i) {
      assert s[i + t] == s[i..i + |w|][t];
    }
  }

  /** A name lacking one letter of each keyword ('j' of "projection",
      'm' of "map", 'c' of "location") is not downloaded. */
  lemma NotWantedWithoutKeywordLetters(name: string)
    requires 'j' !in name && 'm' !in name && 'c' !in name
    ensures !Wanted(name)
  {
    IsSubstringIffOccurs("projection", name);
    IsSubstringIffOccurs("map", name);
    IsSubstringIffOccurs("location", name);
    forall i: nat ensures !OccursAt("projection", name, i) {
      OccurrenceChars("projection", name, i, 3);
    }
    forall i: nat ensures !OccursAt("map", name, i) {
      OccurrenceChars("map", name, i, 0);
    }
    forall i: nat ensures !OccursAt("location", name, i) {
      OccurrenceChars("location", name, i, 2);
    }
  }

  /** The test is case-sensitive: "Map.svg" is skipped and "map.svg" is
      downloaded. */
  lemma WantedIsCaseSensitive()
    ensures !Wanted("Map.svg")
    ensures Wanted("map.svg")
  {
    NotWantedWithoutKeywordLetters("Map.svg");
    IsSubstringIffOccurs("map", "map.svg");
    assert OccursAt("map", "map.svg", 0);
  }

  /** The name a full-resolution URL is saved under, when it is downloaded
      at all (download_wiki_img.py:91-98). */
  function DownloadName(fullresUrl: string): Option<string> {
    var filename := Sanitize(Basename(fullresUrl));
    if Wanted(filename) then Some(filename) else None
  }

  /** A downloaded file lands directly in the save directory: its name has
      no '/' and, holding a keyword, is neither "." nor "..". */
  lemma DownloadStaysInDirectory(fullresUrl: string)
    ensures var r := DownloadName(fullresUrl);
            r.Some? ==> '/' !in r.value && |r.value| >= 3 && r.value != "." && r.value != ".."
  {
    var r := DownloadName(fullresUrl);
    if r.Some? {
      WantedIffOccurs(r.value);
      var w, i: nat :| w in Keywords && OccursAt(w, r.value, i);
      assert |w| >= 3;
    }
  }

  // ---------------------------------------------------------------------
  // The file title (download_wiki_img.py:82-83)
  // ---------------------------------------------------------------------

  /** `sep` occurs nowhere in `s`. */
  predicate Free(sep: string, s: string) {
    forall j: nat | j <= |s| :: !OccursAt(sep, s, j)
  }

  /** `str.find`: the first position where `sep` occurs. */
  function Find(s: string, sep: string): (r: Option<nat>)
    ensures r.Some? ==> r.value + |sep| <= |s|
    decreases |s|
  {
    if |s| < |sep| then None
    else if s[..|sep|] == sep then Some(0)
    else match Find(s[1..], sep)
         case None => None
         case Some(i) => Some(i + 1)
  }

  /** Find reports the first occurrence, and none only when there is none. */
  lemma {:induction false} FindFirst(s: string, sep: string)
    ensures Find(s, sep).Some? ==>
              OccursAt(sep, s, Find(s, sep).value) &&
              forall j: nat | j < Find(s, sep).value :: !OccursAt(sep, s, j)
    ensures Find(s, sep).None? ==> Free(sep, s)
    decreases |s|
  {
    if |s| >= |sep| && s[..|sep|] != sep {
      FindFirst(s[1..], sep);
      forall j: nat | 1 <= j {
        OccursInTail(sep, s, j);
      }
    }
  }

  predicate IsSuffix(t: string, s: string) {
    |t| <= |s| && s[|s| - |t|..] == t
  }

  /** `sep` ends just before the last `n` characters of `s`. */
  predicate SepBefore(sep: string, s: string, n: nat) {
    |sep| + n <= |s| && s[|s| - n - |sep|..|s| - n] == sep
  }

  lemma SuffixOfDrop(t: string, s: string, k: nat)
    requires k <= |s| && IsSuffix(t, s[k..])
    ensures IsSuffix(t, s)
  {
    assert s[k..][|s| - k - |t|..] == s[|s| - |t|..];
  }

  lemma SepBeforeOfDrop(sep: string, s: string, k: nat, n: nat)
    requires k <= |s| && SepBefore(sep, s[k..], n)
    ensures SepBefore(sep, s, n)
  {
    assert s[k..][|s| - k - n - |sep|..|s| - k - n] == s[|s| - n - |sep|..|s| - n];
  }

  /** `s.split(sep)[-1]`: `split` cuts at the first occurrence of the
      separator and goes on after it, so the last piece is what remains once
      no occurrence is left. An empty separator raises in Python, hence the
      precondition. */
  function LastPiece(s: string, sep: string): string
    requires sep != []
    decreases |s|
  {
    match Find(s, sep)
    case None => s
    case Some(i) => LastPiece(s[i + |sep|..], sep)
  }

  /** The raw title is a suffix of the link. */
  lemma {:induction false} LastPieceIsSuffix(s: string, sep: string)
    requires sep != []
    ensures IsSuffix(LastPiece(s, sep), s)
    decreases |s|
  {
    if Find(s, sep).Some? {
      var k := Find(s, sep).value + |sep|;
      LastPieceIsSuffix(s[k..], sep);
      SuffixOfDrop(LastPiece(s, sep), s, k);
    }
  }

  /** The raw title holds no separator, and when the link holds one, the
      title follows one of its occurrences. */
  lemma {:induction false} LastPieceFollowsSeparator(s: string, sep: string)
    requires sep != []
    ensures Free(sep, LastPiece(s, sep))
    ensures !Free(sep, s) ==> SepBefore(sep, s, |LastPiece(s, sep)|)
    decreases |s|
  {
    FindFirst(s, sep);
    if Find(s, sep).Some? {
      var i := Find(s, sep).value;
      var k := i + |sep|;
      var rest := s[k..];
      var last := LastPiece(s, sep);
      assert last == LastPiece(rest, sep);
      LastPieceFollowsSeparator(rest, sep);
      if !Free(sep, rest) {
        SepBeforeOfDrop(sep, s, k, |last|);
      } else {
        FindFirst(rest, sep);
        assert last == rest;
        assert s[|s| - |last| - |sep|..|s| - |last|] == s[i..i + |sep|];
      }
    }
  }

  /** `file_url.split("/wiki/")[-1]`, then `unquote`. */
  function FileTitle(fileUrl: string): string {
    Unquote(LastPiece(fileUrl, "/wiki/"))
  }

  /** The title of a link with no "/wiki/" is the whole link, decoded. */
  lemma FileTitleWithoutMarker(fileUrl: string)
    requires Free("/wiki/", fileUrl)
    ensures FileTitle(fileUrl) == Unquote(fileUrl)
  {
    FindFirst(fileUrl, "/wiki/");
  }

  /** The cuts are made scanning from the left, so a link ending in
      "/wiki/wiki/" has the title "wiki/", not the empty text after the
      last occurrence of "/wiki/" (which starts inside the first). */
  lemma FileTitleScansFromLeft()
    ensures FileTitle("/wiki/wiki/") == "wiki/"
    ensures OccursAt("/wiki/", "/wiki/wiki/", 5)
  {
    var s := "/wiki/wiki/";
    assert s[..6] == "/wiki/";
    assert s[6..] == "wiki/";
    assert s[5..11] == "/wiki/";
    assert '%' !in "wiki/";
  }
}
