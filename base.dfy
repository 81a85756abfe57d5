/** Small helpers shared by the rest of the model: an Option type and the
    string operations of Python that the quiz relies on (ASCII upper/lower
    case, substring test, basename of a path). */
module Base {

  datatype Option<+T> = None | Some(value: T)

  predicate IsUpperLetter(c: char) { 'A' <= c <= 'Z' }
  predicate IsLowerLetter(c: char) { 'a' <= c <= 'z' }

  function UpperChar(c: char): (u: char)
    ensures !IsLowerLetter(u)
    ensures IsLowerLetter(c) ==> u as int == c as int - 32
    ensures !IsLowerLetter(c) ==> u == c
  {
    if IsLowerLetter(c) then (c as int - 32) as char else c
  }

  function LowerChar(c: char): (l: char)
    ensures !IsUpperLetter(l)
    ensures IsUpperLetter(c) ==> l as int == c as int + 32
    ensures !IsUpperLetter(c) ==> l == c
  {
    if IsUpperLetter(c) then (c as int + 32) as char else c
  }

  /** `str.upper()` restricted to ASCII letters. */
  function Upper(s: string): (r: string)
    ensures |r| == |s|
    ensures forall i | 0 <= i < |r| :: !IsLowerLetter(r[i])
  {
    seq(|s|, i requires 0 <= i < |s| => UpperChar(s[i]))
  }

  /** `str.lower()` restricted to ASCII letters. */
  function Lower(s: string): (r: string)
    ensures |r| == |s|
    ensures forall i | 0 <= i < |r| :: !IsUpperLetter(r[i])
  {
    seq(|s|, i requires 0 <= i < |s| => LowerChar(s[i]))
  }

  /** Two strings are equal up to case exactly when their upper-case forms
      agree, and exactly when their lower-case forms agree. */
  lemma UpperEqIffLowerEq(a: string, b: string)
    ensures Upper(a) == Upper(b) <==> Lower(a) == Lower(b)
  {
    if Upper(a) == Upper(b) {
      assert |a| == |b|;
      forall i | 0 <= i < |a| ensures Lower(a)[i] == Lower(b)[i] {
        assert UpperChar(a[i]) == Upper(a)[i] == Upper(b)[i] == UpperChar(b[i]);
      }
    }
    if Lower(a) == Lower(b) {
      assert |a| == |b|;
      forall i | 0 <= i < |a| ensures Upper(a)[i] == Upper(b)[i] {
        assert LowerChar(a[i]) == Lower(a)[i] == Lower(b)[i] == LowerChar(b[i]);
      }
    }
  }

  /** Upper-casing is idempotent. */
  lemma UpperIdempotent(s: string)
    ensures Upper(Upper(s)) == Upper(s)
  {
    forall i | 0 <= i < |s| ensures Upper(Upper(s))[i] == Upper(s)[i] {
      assert !IsLowerLetter(Upper(s)[i]);
    }
  }

  /** Python's `w in s` for strings: `w` occurs somewhere in `s`. */
  predicate IsSubstring(w: string, s: string)
    decreases |s|
  {
    w <= s || (s != [] && IsSubstring(w, s[1..]))
  }

  /** `w` occurs in `s` starting at index `i`. */
  predicate OccursAt(w: string, s: string, i: nat) {
    i + |w| <= |s| && s[i..i + |w|] == w
  }

  /** An occurrence past the first position is an occurrence in the tail. */
  lemma OccursInTail(sep: string, s: string, j: nat)
    requires 1 <= j && s != []
    ensures OccursAt(sep, s, j) <==> OccursAt(sep, s[1..], j - 1)
  {
    if j + |sep| <= |s| {
      var t := s[1..];
      var a, b := t[j - 1..j - 1 + |sep|], s[j..j + |sep|];
      forall m | 0 <= m < |sep| ensures a[m] == b[m] {
        assert t[j - 1 + m] == s[j + m];
      }
      assert a == b;
    }
  }

  lemma PrefixOccurs(w: string, s: string)
    ensures w <= s <==> OccursAt(w, s, 0)
  {
    if |w| <= |s| {
      var a := s[0..|w|];
      if w <= s {
        forall m | 0 <= m < |w| ensures a[m] == w[m] {
        }
        assert a == w;
      }
    }
  }

  /** The recursive substring test agrees with "some slice of `s` equals `w`". */
  lemma {:induction false} IsSubstringIffOccurs(w: string, s: string)
    ensures IsSubstring(w, s) <==> exists i: nat :: OccursAt(w, s, i)
    decreases |s|
  {
    PrefixOccurs(w, s);
    if s != [] {
      IsSubstringIffOccurs(w, s[1..]);
      forall i: nat | 1 <= i {
        OccursInTail(w, s, i);
      }
      if IsSubstring(w, s[1..]) {
        var i: nat :| OccursAt(w, s[1..], i);
        assert OccursAt(w, s, i + 1);
      }
      if exists i: nat :: OccursAt(w, s, i) {
        var i: nat :| OccursAt(w, s, i);
        if i > 0 {
          assert OccursAt(w, s[1..], i - 1);
        }
      }
    }
  }

  /** Where the last component of a POSIX path starts: just after its last
      '/', or at 0 when there is none; no '/' follows it. */
  function BasenameStart(path: string): (k: nat)
    ensures k <= |path|
    ensures k > 0 ==> path[k - 1] == '/'
    ensures forall j | k <= j < |path| :: path[j] != '/'
  {
    if path == [] then 0
    else if path[|path| - 1] == '/' then |path|
    else
      var init := path[..|path| - 1];
      assert forall j | 0 <= j < |init| :: init[j] == path[j];
      BasenameStart(init)
  }

  /** `os.path.basename` on POSIX paths. */
  function Basename(path: string): string {
    path[BasenameStart(path)..]
  }

  /** The base name of any path holds no '/'. */
  lemma BasenameHasNoSlash(path: string)
    ensures '/' !in Basename(path)
  {
    var b := Basename(path);
    var k := BasenameStart(path);
    forall i | 0 <= i < |b| ensures b[i] != '/' {
      assert b[i] == path[k + i];
    }
  }

  predicate Distinct<T(==)>(s: seq<T>) {
    forall i, j | 0 <= i < j < |s| :: s[i] != s[j]
  }
}
