/** The parts of Go's `path/filepath` and `strings` packages that the core relies on,
    for Unix paths (separator '/', no volume names). Strings are sequences of
    characters; case mapping is ASCII only. */
module Paths {

  predicate IsUpper(c: char) { 'A' <= c <= 'Z' }

  /** ASCII lower-casing of one character. */
  function LowerChar(c: char): (r: char)
    ensures !IsUpper(r)
    ensures r == c || (IsUpper(c) && r as int == c as int + 32)
  {
    if IsUpper(c) then (c as int + 32) as char else c
  }

  /** strings.ToLower restricted to ASCII: upper-case letters map to lower case,
      every other character is kept. */
  function ToLower(s: string): (r: string)
    ensures |r| == |s|
    ensures forall i :: 0 <= i < |r| ==> !IsUpper(r[i])
    ensures forall i :: 0 <= i < |r| ==> r[i] == s[i] || (IsUpper(s[i]) && r[i] as int == s[i] as int + 32)
  {
    seq(|s|, i requires 0 <= i < |s| => LowerChar(s[i]))
  }

  /** Lower-casing works character by character, so it distributes over slicing and concatenation. */
  lemma ToLowerSlices(s: string, t: string, k: nat)
    requires k <= |s|
    ensures ToLower(s + t) == ToLower(s) + ToLower(t)
    ensures ToLower(s[..k]) == ToLower(s)[..k]
  {
  }

  /** Lower-casing twice is lower-casing once. */
  lemma ToLowerIdempotent(s: string)
    ensures ToLower(ToLower(s)) == ToLower(s)
  {
  }

  /** Position `k` holds a '.' of the final path element (no '/' after it). */
  ghost predicate DotInLastElement(path: string, k: int)
  {
    0 <= k < |path| && path[k] == '.' && forall j :: k < j < |path| ==> path[j] != '/'
  }

  /** filepath.Ext: scanning back from the end of `path`, the suffix from the
      first '.' met, or "" once a '/' or the start is reached. */
  function Ext(path: string): (r: string)
    ensures |r| <= |path| && (r == "" || r[0] == '.')
    decreases |path|
  {
    if |path| == 0 || path[|path| - 1] == '/' then ""
    else if path[|path| - 1] == '.' then "."
    else
      var e := Ext(path[..|path| - 1]);
      if e == "" then "" else e + [path[|path| - 1]]
  }

  /** filepath.Ext returns the suffix of `path` starting at the final '.' of its
      final element, and "" exactly when that element has no '.'. */
  lemma ExtIsLastDotSuffix(path: string)
    ensures var r := Ext(path);
      r != "" ==> |r| <= |path| && r == path[|path| - |r|..] && r[0] == '.'
    ensures var r := Ext(path);
      r != "" ==> forall k :: 1 <= k < |r| ==> r[k] != '.' && r[k] != '/'
    ensures Ext(path) == "" <==> !exists k :: DotInLastElement(path, k)
  {
    ExtIsDotSuffix(path);
    ExtEmptyIffNoDot(path);
  }

  lemma {:induction false} ExtIsDotSuffix(path: string)
    ensures var r := Ext(path);
      r != "" ==> |r| <= |path| && r == path[|path| - |r|..] && r[0] == '.'
    ensures var r := Ext(path);
      r != "" ==> forall k :: 1 <= k < |r| ==> r[k] != '.' && r[k] != '/'
    decreases |path|
  {
    var n := |path|;
    if n > 0 && path[n - 1] != '/' && path[n - 1] != '.' {
      var q := path[..n - 1];
      ExtIsDotSuffix(q);
      var e := Ext(q);
      if e != "" {
        assert path[n - |e| - 1..] == q[n - 1 - |e|..] + [path[n - 1]];
      }
    }
  }

  lemma {:induction false} ExtEmptyIffNoDot(path: string)
    ensures Ext(path) == "" <==> !exists k :: DotInLastElement(path, k)
    decreases |path|
  {
    var n := |path|;
    if n == 0 || path[n - 1] == '/' {
    } else if path[n - 1] == '.' {
      assert DotInLastElement(path, n - 1);
    } else {
      var q := path[..n - 1];
      ExtEmptyIffNoDot(q);
      assert forall k :: DotInLastElement(path, k) <==> DotInLastElement(q, k);
    }
  }

  /** filepath.Split: `dir` is everything up to and including the final '/',
      `file` the rest. */
  function Split(path: string): (r: (string, string))
    ensures r.0 + r.1 == path
    ensures '/' !in r.1
    ensures r.0 == "" || r.0[|r.0| - 1] == '/'
    decreases |path|
  {
    if |path| == 0 then ("", "")
    else if path[|path| - 1] == '/' then (path, "")
    else
      var (d, f) := Split(path[..|path| - 1]);
      (d, f + [path[|path| - 1]])
  }

  /** Drops every trailing '/' (the first step of filepath.Base). */
  function TrimTrailingSlashes(path: string): (r: string)
    ensures |r| <= |path| && r == path[..|r|]
    ensures r == "" || r[|r| - 1] != '/'
    ensures forall k :: |r| <= k < |path| ==> path[k] == '/'
    decreases |path|
  {
    if |path| > 0 && path[|path| - 1] == '/' then TrimTrailingSlashes(path[..|path| - 1]) else path
  }

  /** filepath.Base: the final element of `path` once trailing slashes are dropped;
      "." for the empty path and "/" for a path made only of slashes. */
  function Base(path: string): string
  {
    if path == "" then "."
    else
      var p := TrimTrailingSlashes(path);
      if p == "" then "/" else Split(p).1
  }

  /** filepath.Base is never empty, is "/" or holds no '/', is "." for the empty
      path, is the part after the last '/' when the path does not end in '/', and
      is "/" exactly for a path made only of slashes. */
  lemma {:induction false} BaseIsFinalElement(path: string)
    ensures var r := Base(path);
      r != "" && (r == "/" || '/' !in r) && (path == "" ==> r == ".")
    ensures path != "" && path[|path| - 1] != '/' ==> Base(path) == Split(path).1
    ensures path != "" ==> (Base(path) == "/" <==> forall k :: 0 <= k < |path| ==> path[k] == '/')
  {
    if path != "" {
      var p := TrimTrailingSlashes(path);
      if p == "" {
        assert forall k :: 0 <= k < |path| ==> path[k] == '/';
      } else {
        assert path[|p| - 1] != '/';
      }
    }
  }

  /** A path with an extension does not end in '/', and its extension holds no '/'. */
  lemma {:induction false} ExtEndsPath(path: string)
    requires Ext(path) != ""
    ensures path != "" && path[|path| - 1] != '/'
    ensures '/' !in Ext(path)
  {
    ExtIsLastDotSuffix(path);
    var e := Ext(path);
    assert e[|e| - 1] == path[|path| - 1];
  }

  /** When the path has an extension, that extension is a suffix of its base name. */
  lemma {:induction false} ExtIsSuffixOfBase(path: string)
    requires Ext(path) != ""
    ensures |Ext(path)| <= |Base(path)|
    ensures Base(path)[|Base(path)| - |Ext(path)|..] == Ext(path)
  {
    ExtEndsPath(path);
    ExtIsLastDotSuffix(path);
    BaseIsFinalElement(path);
    var sp := Split(path);
    SlashFreeSuffixFits(path, Ext(path), sp.0, sp.1);
  }

  /** A slash-free suffix of a path is no longer than the part after its last '/'. */
  lemma {:induction false} SlashFreeSuffixFits(path: string, e: string, d: string, f: string)
    requires d + f == path && (d == "" || d[|d| - 1] == '/')
    requires |e| <= |path| && e == path[|path| - |e|..] && '/' !in e
    ensures |e| <= |f| && f[|f| - |e|..] == e
  {
    var n := |path|;
    assert forall i :: n - |e| <= i < n ==> path[i] == e[i - (n - |e|)];
    assert |d| == 0 || path[|d| - 1] == '/';
    assert |d| <= n - |e|;
    assert f == path[|d|..];
  }

  /** strings.Join with separator "/". */
  function Join(parts: seq<string>): (r: string)
    requires |parts| >= 1
    decreases |parts|
  {
    if |parts| == 1 then parts[0] else parts[0] + "/" + Join(parts[1..])
  }

  /** strings.Split with separator "/": the pieces between successive '/'
      characters, one more piece than there are separators. */
  function Fields(s: string): (r: seq<string>)
    ensures |r| >= 1
    ensures forall k :: 0 <= k < |r| ==> '/' !in r[k]
    ensures Join(r) == s
    decreases |s|
  {
    if s == "" then [""]
    else
      var rest := Fields(s[1..]);
      if s[0] == '/' then
        assert ([""] + rest)[1..] == rest;
        [""] + rest
      else
        var r := [[s[0]] + rest[0]] + rest[1..];
        assert r[1..] == rest[1..];
        assert s == [s[0]] + s[1..];
        r
  }

  /** A slash-free prefix joins the first piece. */
  lemma {:induction false} FieldsPrepend(w: string, t: string)
    requires '/' !in w
    ensures Fields(w + t) == [w + Fields(t)[0]] + Fields(t)[1..]
    decreases |w|
  {
    var f := Fields(t);
    if w == "" {
      assert w + t == t && w + f[0] == f[0];
      assert [f[0]] + f[1..] == f;
    } else {
      FieldsPrepend(w[1..], t);
      assert (w + t)[1..] == w[1..] + t;
      assert [w[0]] + (w[1..] + f[0]) == w + f[0];
    }
  }

  /** A slash-free word is one piece, and a word followed by "/" contributes one piece. */
  lemma {:induction false} FieldsOfWord(w: string, t: string)
    requires '/' !in w
    ensures Fields(w) == [w]
    ensures Fields(w + "/" + t) == [w] + Fields(t)
  {
    FieldsPrepend(w, "");
    assert w + "" == w;
    FieldsPrepend(w, "/" + t);
    assert ("/" + t)[1..] == t;
    assert Fields("/" + t) == [""] + Fields(t);
    assert w + "/" + t == w + ("/" + t);
  }

  /** Splitting a join of slash-free pieces gives the pieces back. */
  lemma {:induction false} FieldsJoin(parts: seq<string>)
    requires |parts| >= 1
    requires forall k :: 0 <= k < |parts| ==> '/' !in parts[k]
    ensures Fields(Join(parts)) == parts
    decreases |parts|
  {
    FieldsOfWord(parts[0], "");
    if |parts| > 1 {
      FieldsJoin(parts[1..]);
      FieldsOfWord(parts[0], Join(parts[1..]));
      assert [parts[0]] + parts[1..] == parts;
    }
  }

  /** A string splits into a single piece exactly when it holds no '/'. */
  lemma {:induction false} FieldsSingle(s: string)
    ensures |Fields(s)| == 1 <==> '/' !in s
  {
    if '/' !in s { FieldsOfWord(s, ""); }
  }

  /** `pat` occurs in `s` at position `k`. */
  predicate OccursAt(s: string, pat: string, k: int)
  {
    0 <= k && k + |pat| <= |s| && s[k..k + |pat|] == pat
  }

  /** strings.Replace(s, pat, "", -1): every non-overlapping occurrence of `pat`,
      scanning left to right, is removed; an empty `pat` leaves `s` as it is. */
  function RemoveAll(s: string, pat: string): (r: string)
    ensures |r| <= |s|
    decreases |s|
  {
    if pat == "" || |s| < |pat| then s
    else if s[..|pat|] == pat then RemoveAll(s[|pat|..], pat)
    else [s[0]] + RemoveAll(s[1..], pat)
  }

  /** A string in which `pat` does not occur is left unchanged. */
  lemma {:induction false} RemoveAllAbsent(s: string, pat: string)
    requires forall k :: 0 <= k <= |s| ==> !OccursAt(s, pat, k)
    ensures RemoveAll(s, pat) == s
    decreases |s|
  {
    if pat != "" && |s| >= |pat| {
      assert !OccursAt(s, pat, 0);
      forall k | 0 <= k <= |s[1..]| ensures !OccursAt(s[1..], pat, k) {
        if k + |pat| <= |s[1..]| {
          assert !OccursAt(s, pat, k + 1);
          assert s[1..][k..k + |pat|] == s[k + 1..k + 1 + |pat|];
        }
      }
      RemoveAllAbsent(s[1..], pat);
      assert [s[0]] + s[1..] == s;
    }
  }

  /** A walked path is the walk root followed by the rest; when the root does not
      occur again in the rest, removing it leaves exactly the rest. */
  lemma {:induction false} RemoveAllRoot(root: string, rest: string)
    requires root != ""
    requires forall k :: 0 <= k <= |rest| ==> !OccursAt(rest, root, k)
    ensures RemoveAll(root + rest, root) == rest
  {
    assert (root + rest)[..|root|] == root;
    assert (root + rest)[|root|..] == rest;
    RemoveAllAbsent(rest, root);
  }
}
