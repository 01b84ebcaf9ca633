/** Recognising movie files by extension: the list sorted once at start-up
    (handbraked.go:22, handbraked.go:156) and the lower-bound binary search plus
    equality test that both the watcher (handbraked.go:172-178) and the
    source-file listing (ui/web.go:83-91) apply to it. */
module Extensions {
  import opened Options
  import opened Paths

  /** Go's string comparison `a < b`: lexicographic by character code. */
  predicate Below(a: string, b: string)
    decreases |a|
  {
    if a == [] then b != []
    else b != [] && (if a[0] != b[0] then a[0] < b[0] else Below(a[1..], b[1..]))
  }

  lemma {:induction false} BelowIrreflexive(a: string)
    ensures !Below(a, a)
    decreases |a|
  {
    if a != [] { BelowIrreflexive(a[1..]); }
  }

  lemma {:induction false} BelowTransitive(a: string, b: string, c: string)
    requires Below(a, b) && Below(b, c)
    ensures Below(a, c)
    decreases |a|
  {
    if a != [] && a[0] == b[0] && b[0] == c[0] {
      BelowTransitive(a[1..], b[1..], c[1..]);
    }
  }

  /** Any two different strings are ordered one way or the other. */
  lemma {:induction false} BelowTotal(a: string, b: string)
    ensures a == b || Below(a, b) || Below(b, a)
    decreases |a|
  {
    if a != [] && b != [] && a[0] == b[0] {
      BelowTotal(a[1..], b[1..]);
      if a[1..] == b[1..] {
        assert a == [a[0]] + a[1..] && b == [b[0]] + b[1..];
      }
    }
  }

  /** The order `!Below(b, a)`, that is `a <= b`, is transitive and antisymmetric. */
  lemma {:induction false} NotBelowTransitive(a: string, b: string, c: string)
    requires !Below(b, a) && !Below(c, b)
    ensures !Below(c, a)
  {
    BelowTotal(a, b);
    BelowTotal(b, c);
    if a != b && b != c { BelowTransitive(a, b, c); BelowAsymmetric(a, c); }
    else if a != b { BelowAsymmetric(a, c); }
    else if b != c { BelowAsymmetric(b, c); }
    else { BelowIrreflexive(a); }
  }

  lemma {:induction false} BelowAsymmetric(a: string, b: string)
    requires Below(a, b)
    ensures !Below(b, a)
  {
    if Below(b, a) { BelowTransitive(a, b, a); BelowIrreflexive(a); }
  }

  lemma {:induction false} NotBelowAntisymmetric(a: string, b: string)
    requires !Below(a, b) && !Below(b, a)
    ensures a == b
  {
    BelowTotal(a, b);
  }

  /** What sort.Strings establishes: non-decreasing order. */
  ghost predicate Sorted(a: seq<string>)
  {
    forall p, q :: 0 <= p < q < |a| ==> !Below(a[q], a[p])
  }

  /** The loop of sort.Search on the half-open range [lo, hi), with the test
      "a[h] >= x" of sort.SearchStrings. */
  function SearchRange(a: seq<string>, x: string, lo: nat, hi: nat): (r: nat)
    requires lo <= hi <= |a|
    ensures lo <= r <= hi
    decreases hi - lo
  {
    if lo < hi then
      var h := (lo + hi) / 2;
      if Below(a[h], x) then SearchRange(a, x, h + 1, hi) else SearchRange(a, x, lo, h)
    else lo
  }

  /** sort.SearchStrings: the index at which `x` would be inserted into `a`. */
  function SearchStrings(a: seq<string>, x: string): (r: nat)
    ensures r <= |a|
  {
    SearchRange(a, x, 0, |a|)
  }

  lemma {:induction false} SearchRangeLowerBound(a: seq<string>, x: string, lo: nat, hi: nat)
    requires Sorted(a) && lo <= hi <= |a|
    requires forall k :: 0 <= k < lo ==> Below(a[k], x)
    requires forall k :: hi <= k < |a| ==> !Below(a[k], x)
    ensures forall k :: 0 <= k < SearchRange(a, x, lo, hi) ==> Below(a[k], x)
    ensures forall k :: SearchRange(a, x, lo, hi) <= k < |a| ==> !Below(a[k], x)
    decreases hi - lo
  {
    if lo < hi {
      var h := (lo + hi) / 2;
      if Below(a[h], x) {
        forall k | lo <= k < h ensures Below(a[k], x) {
          BelowTotal(a[k], a[h]);
          if a[k] != a[h] { BelowTransitive(a[k], a[h], x); }
        }
        SearchRangeLowerBound(a, x, h + 1, hi);
      } else {
        forall k | h < k < hi ensures !Below(a[k], x) {
          NotBelowTransitive(x, a[h], a[k]);
        }
        SearchRangeLowerBound(a, x, lo, h);
      }
    }
  }

  /** On a sorted list, SearchStrings is the lower bound of `x`: everything before
      it is smaller than `x`, nothing from it on is. */
  lemma {:induction false} SearchStringsLowerBound(a: seq<string>, x: string)
    requires Sorted(a)
    ensures forall k :: 0 <= k < SearchStrings(a, x) ==> Below(a[k], x)
    ensures forall k :: SearchStrings(a, x) <= k < |a| ==> !Below(a[k], x)
  {
    SearchRangeLowerBound(a, x, 0, |a|);
  }

  /** The index-plus-equality membership test of handbraked.go:177-178 and
      ui/web.go:89-90. */
  predicate Contains(a: seq<string>, x: string)
    ensures Contains(a, x) ==> x in a
  {
    var i := SearchStrings(a, x);
    i < |a| && a[i] == x
  }

  /** On a sorted list the binary-search test is exact membership. */
  lemma {:induction false} ContainsIsMembership(a: seq<string>, x: string)
    requires Sorted(a)
    ensures Contains(a, x) <==> x in a
  {
    var i := SearchStrings(a, x);
    SearchStringsLowerBound(a, x);
    if x in a {
      var k :| 0 <= k < |a| && a[k] == x;
      BelowIrreflexive(x);
      assert i <= k;
      if i < k { assert !Below(a[k], a[i]); }
      NotBelowAntisymmetric(a[i], x);
    }
  }

  /** The list as declared at handbraked.go:22. */
  const MovieExtensions: seq<string> := ["m4v", "avi", "mpg", "mpeg", "mkv", "mov"]

  /** The list after sort.Strings at handbraked.go:156. */
  const SortedMovieExtensions: seq<string> := ["avi", "m4v", "mkv", "mov", "mpeg", "mpg"]

  /** A list whose neighbours are in order is sorted. */
  lemma {:induction false} NeighboursSorted(a: seq<string>)
    requires forall i :: 0 <= i < |a| - 1 ==> !Below(a[i + 1], a[i])
    ensures Sorted(a)
    decreases |a|
  {
    if |a| > 1 {
      NeighboursSorted(a[1..]);
      forall q | 1 < q < |a| ensures !Below(a[q], a[0]) {
        assert !Below(a[q], a[1]) by { assert a[q] == a[1..][q - 1] && a[1] == a[1..][0]; }
        NotBelowTransitive(a[0], a[1], a[q]);
      }
    }
  }

  lemma SortedMovieExtensionsNeighbours()
    ensures forall i :: 0 <= i < |SortedMovieExtensions| - 1 ==>
      Below(SortedMovieExtensions[i], SortedMovieExtensions[i + 1])
  {
    assert Below("avi", "m4v") && Below("m4v", "mkv") && Below("mkv", "mov");
    assert Below("mov", "mpeg") && Below("mpeg", "mpg");
  }

  /** The start-up sort yields the declared extensions, rearranged into order. */
  lemma SortedMovieExtensionsIsSorted()
    ensures Sorted(SortedMovieExtensions)
    ensures multiset(SortedMovieExtensions) == multiset(MovieExtensions)
  {
    var s := SortedMovieExtensions;
    SortedMovieExtensionsNeighbours();
    forall i | 0 <= i < |s| - 1 ensures !Below(s[i + 1], s[i]) { BelowAsymmetric(s[i], s[i + 1]); }
    NeighboursSorted(s);
    SortedMovieExtensionsIsPermutation();
  }

  lemma SortedMovieExtensionsIsPermutation()
    ensures multiset(SortedMovieExtensions) == multiset(MovieExtensions)
  {
    var s := SortedMovieExtensions;
    assert MovieExtensions == [s[1], s[0], s[5], s[4], s[2], s[3]];
  }

  /** The text the watcher and the listing look up: the lower-cased extension
      without its leading '.', or None when the name has no extension. */
  function Candidate(path: string): (r: Option<string>)
    ensures r.None? <==> Ext(path) == ""
    ensures r.Some? ==> r.value == ToLower(Ext(path))[1..] && '.' !in r.value && '/' !in r.value
  {
    ExtIsLastDotSuffix(path);
    var ext := ToLower(Ext(path));
    if ext == "" then None else Some(ext[1..])
  }

  /** The full extension check of handbraked.go:172-178 and ui/web.go:83-90: a
      recognised, case-insensitively matched extension. Whether or not the list is
      sorted, an accepted name has an extension whose text is listed. */
  predicate HasMovieExtension(path: string, exts: seq<string>)
    ensures HasMovieExtension(path, exts) ==> Ext(path) != "" && ToLower(Ext(path))[1..] in exts
  {
    var c := Candidate(path);
    c.Some? && Contains(exts, c.value)
  }

  /** With the list sorted, the check accepts exactly the names whose lower-cased
      extension is in the list; names without an extension are rejected. */
  lemma {:induction false} HasMovieExtensionIsMembership(path: string, exts: seq<string>)
    requires Sorted(exts)
    ensures HasMovieExtension(path, exts) <==> Ext(path) != "" && ToLower(Ext(path))[1..] in exts
  {
    if Ext(path) != "" { ContainsIsMembership(exts, ToLower(Ext(path))[1..]); }
  }

  /** Lower-casing commutes with taking the extension, since it keeps '.' and '/'. */
  lemma {:induction false} ExtToLower(path: string)
    ensures Ext(ToLower(path)) == ToLower(Ext(path))
    decreases |path|
  {
    var n := |path|;
    if n > 0 && path[n - 1] != '/' && path[n - 1] != '.' {
      ExtToLower(path[..n - 1]);
      ExtToLowerStep(path);
    }
  }

  lemma {:induction false} ExtToLowerStep(path: string)
    requires |path| > 0 && path[|path| - 1] != '/' && path[|path| - 1] != '.'
    requires Ext(ToLower(path[..|path| - 1])) == ToLower(Ext(path[..|path| - 1]))
    ensures Ext(ToLower(path)) == ToLower(Ext(path))
  {
    var n := |path|;
    var q := path[..n - 1];
    var c := path[n - 1];
    var lp := ToLower(path);
    ToLowerSlices(path, [], n - 1);
    assert lp[..n - 1] == ToLower(q);
    assert lp[n - 1] == LowerChar(c);
    ToLowerSlices(Ext(q), [c], 0);
  }

  /** The check is case-insensitive: a name and its lower-cased form agree. */
  lemma {:induction false} HasMovieExtensionIgnoresCase(path: string, exts: seq<string>)
    ensures HasMovieExtension(ToLower(path), exts) == HasMovieExtension(path, exts)
  {
    ExtToLower(path);
    ToLowerIdempotent(Ext(path));
  }
}
