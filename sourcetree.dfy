/** The directory tree behind the source-file listing (ui/web.go:35-99). Go links
    the `Directory` nodes by pointer; here they live in an arena, a sequence of
    nodes addressed by index, with node 0 the root and each node's children kept
    as a list of indices. getDirectory finds or creates the node for a path's
    directory, and the walk callback adds the movie files to it. */
module SourceTree {
  import opened Options
  import opened Paths
  import opened Extensions

  /** A listed file: its base name and its path below the source directory. */
  datatype File = File(name: string, path: string)

  /** One directory: its name, its files and the arena indices of its children. */
  datatype Dir = Dir(name: string, files: seq<File>, children: seq<nat>)

  /** The arena's shape: a root exists, and every child index lies past its parent
      and inside the arena (so following children always moves forward). */
  ghost predicate WellFormed(nodes: seq<Dir>)
  {
    |nodes| > 0 &&
    forall i, k :: 0 <= i < |nodes| && 0 <= k < |nodes[i].children| ==> i < nodes[i].children[k] < |nodes|
  }

  /** No directory has two children of the same name. */
  ghost predicate DistinctSiblings(nodes: seq<Dir>)
    requires WellFormed(nodes)
  {
    forall i, k, l :: 0 <= i < |nodes| && 0 <= k < l < |nodes[i].children| ==>
      nodes[nodes[i].children[k]].name != nodes[nodes[i].children[l]].name
  }

  /** `b` is `a` with more directories: names and files kept, each child list
      extended at its end only, new nodes at the end of the arena. */
  ghost predicate Extends(a: seq<Dir>, b: seq<Dir>)
  {
    |a| <= |b| &&
    forall i :: 0 <= i < |a| ==> b[i].name == a[i].name && b[i].files == a[i].files && a[i].children <= b[i].children
  }

  /** The search of ui/web.go:60-66 from position `k` of `cur`'s children: the
      position of the first child named `name`. */
  function FindChildFrom(nodes: seq<Dir>, cur: nat, name: string, k: nat): (r: Option<nat>)
    requires WellFormed(nodes) && cur < |nodes| && k <= |nodes[cur].children|
    ensures r.Some? ==> k <= r.value < |nodes[cur].children| && nodes[nodes[cur].children[r.value]].name == name
    ensures r.Some? ==> forall j :: k <= j < r.value ==> nodes[nodes[cur].children[j]].name != name
    ensures r.None? ==> forall j :: k <= j < |nodes[cur].children| ==> nodes[nodes[cur].children[j]].name != name
    decreases |nodes[cur].children| - k
  {
    if k == |nodes[cur].children| then None
    else if nodes[nodes[cur].children[k]].name == name then Some(k)
    else FindChildFrom(nodes, cur, name, k + 1)
  }

  function FindChild(nodes: seq<Dir>, cur: nat, name: string): Option<nat>
    requires WellFormed(nodes) && cur < |nodes|
  {
    FindChildFrom(nodes, cur, name, 0)
  }

  /** The first matching position is what the search reports. */
  lemma {:induction false} FindChildIsFirst(nodes: seq<Dir>, cur: nat, name: string, pos: nat)
    requires WellFormed(nodes) && cur < |nodes| && pos < |nodes[cur].children|
    requires nodes[nodes[cur].children[pos]].name == name
    requires forall j :: 0 <= j < pos ==> nodes[nodes[cur].children[j]].name != name
    ensures FindChild(nodes, cur, name) == Some(pos)
  {
    var r := FindChild(nodes, cur, name);
    assert r.Some?;
    assert !(r.value < pos);
  }

  /** The search depends only on the child list and the children's names. */
  lemma {:induction false} FindChildStable(a: seq<Dir>, b: seq<Dir>, cur: nat, name: string)
    requires WellFormed(a) && WellFormed(b) && Extends(a, b) && cur < |a|
    requires b[cur].children == a[cur].children
    ensures FindChild(b, cur, name) == FindChild(a, cur, name)
  {
    var ra, rb := FindChild(a, cur, name), FindChild(b, cur, name);
    var ch := a[cur].children;
    assert forall j :: 0 <= j < |ch| ==> b[ch[j]].name == a[ch[j]].name;
    if ra.Some? {
      FindChildIsFirst(b, cur, name, ra.value);
    } else {
      assert rb.None?;
    }
  }

  /** One step of getDirectory (ui/web.go:59-71): the child named `name`, created
      at the end of the child list when there is none. */
  function Descend(nodes: seq<Dir>, cur: nat, name: string): (r: (seq<Dir>, nat))
    requires WellFormed(nodes) && cur < |nodes|
    ensures |nodes| <= |r.0| <= |nodes| + 1 && r.1 < |r.0|
  {
    match FindChild(nodes, cur, name)
    case Some(k) => (nodes, nodes[cur].children[k])
    case None =>
      var n := |nodes|;
      (nodes[cur := nodes[cur].(children := nodes[cur].children + [n])] + [Dir(name, [], [])], n)
  }

  /** A step of the walk keeps the arena well formed, extends it and touches only
      the current node. An existing child of that name is returned as it is;
      otherwise exactly one directory is created, named `name`, with no files and
      no children, appended to the arena and to the end of the current node's
      children. */
  lemma {:induction false} DescendSpec(nodes: seq<Dir>, cur: nat, name: string)
    requires WellFormed(nodes) && cur < |nodes|
    ensures var (n2, next) := Descend(nodes, cur, name);
      WellFormed(n2) && Extends(nodes, n2) && cur < next < |n2| && n2[next].name == name &&
      forall i :: 0 <= i < |nodes| && i != cur ==> n2[i] == nodes[i]
    ensures var (n2, next) := Descend(nodes, cur, name);
      FindChild(nodes, cur, name).Some? ==> n2 == nodes
    ensures var (n2, next) := Descend(nodes, cur, name);
      FindChild(nodes, cur, name).None? ==>
        |n2| == |nodes| + 1 && next == |nodes| && n2[next] == Dir(name, [], []) &&
        n2[cur].children == nodes[cur].children + [next]
    ensures var (n2, next) := Descend(nodes, cur, name);
      exists k :: 0 <= k < |n2[cur].children| && n2[cur].children[k] == next && FindChild(n2, cur, name) == Some(k)
  {
    var (n2, next) := Descend(nodes, cur, name);
    match FindChild(nodes, cur, name)
    case Some(k) =>
      assert n2[cur].children[k] == next && FindChild(n2, cur, name) == Some(k);
    case None =>
      var n := |nodes|;
      var k := |nodes[cur].children|;
      assert forall i :: 0 <= i < n ==> n2[i].name == nodes[i].name;
      assert forall i, j :: 0 <= i < n && 0 <= j < |nodes[i].children| ==> n2[i].children[j] == nodes[i].children[j];
      FindChildIsFirst(n2, cur, name, k);
  }

  /** A directory is created only when no sibling has its name, so sibling names
      stay distinct. */
  lemma {:induction false} DescendKeepsSiblingsDistinct(nodes: seq<Dir>, cur: nat, name: string)
    requires WellFormed(nodes) && cur < |nodes| && DistinctSiblings(nodes)
    ensures DistinctSiblings(Descend(nodes, cur, name).0)
  {
    DescendSpec(nodes, cur, name);
    if FindChild(nodes, cur, name).None? {
      var n2 := Descend(nodes, cur, name).0;
      var ch := nodes[cur].children;
      assert forall j :: 0 <= j < |ch| ==> n2[ch[j]].name == nodes[ch[j]].name != name;
      assert n2[cur].children == ch + [|nodes|] && n2[|nodes|].name == name;
      forall i, k, l | 0 <= i < |n2| && 0 <= k < l < |n2[i].children|
        ensures n2[n2[i].children[k]].name != n2[n2[i].children[l]].name
      {
        if i == cur && l == |ch| {
          assert n2[i].children[k] == ch[k];
        } else if i < |nodes| {
          assert n2[i].children[k] == nodes[i].children[k] && n2[i].children[l] == nodes[i].children[l];
        }
      }
    }
  }

  /** getDirectory's walk over the remaining components from node `cur`
      (ui/web.go:55-73): empty components are skipped, the others descended into. */
  function Walk(nodes: seq<Dir>, cur: nat, comps: seq<string>): (r: (seq<Dir>, nat))
    requires WellFormed(nodes) && cur < |nodes|
    ensures WellFormed(r.0) && cur <= r.1 < |r.0| && |nodes| <= |r.0|
    decreases |comps|
  {
    if comps == [] then (nodes, cur)
    else if comps[0] == "" then Walk(nodes, cur, comps[1..])
    else
      DescendSpec(nodes, cur, comps[0]);
      var (n2, next) := Descend(nodes, cur, comps[0]);
      Walk(n2, next, comps[1..])
  }

  /** The walk keeps the arena well formed, only extends it, ends at a node at or
      past `cur`, leaves every node before `cur` as it was, and keeps sibling names
      distinct. */
  lemma {:induction false} WalkSpec(nodes: seq<Dir>, cur: nat, comps: seq<string>)
    requires WellFormed(nodes) && cur < |nodes|
    ensures var (n2, d) := Walk(nodes, cur, comps);
      WellFormed(n2) && Extends(nodes, n2) && cur <= d < |n2| &&
      forall i :: 0 <= i < cur ==> n2[i] == nodes[i]
    ensures DistinctSiblings(nodes) ==> DistinctSiblings(Walk(nodes, cur, comps).0)
    decreases |comps|
  {
    if comps != [] {
      if comps[0] == "" {
        WalkSpec(nodes, cur, comps[1..]);
      } else {
        DescendSpec(nodes, cur, comps[0]);
        if DistinctSiblings(nodes) { DescendKeepsSiblingsDistinct(nodes, cur, comps[0]); }
        var (n1, next) := Descend(nodes, cur, comps[0]);
        WalkSpec(n1, next, comps[1..]);
        ExtendsTransitive(nodes, n1, Walk(n1, next, comps[1..]).0);
      }
    }
  }

  lemma {:induction false} ExtendsTransitive(a: seq<Dir>, b: seq<Dir>, c: seq<Dir>)
    requires Extends(a, b) && Extends(b, c)
    ensures Extends(a, c)
  {
  }

  /** Walking the same components again from the same node finds the same node and
      changes nothing: everything the first walk needed now exists. */
  lemma {:induction false} WalkIdempotent(nodes: seq<Dir>, cur: nat, comps: seq<string>)
    requires WellFormed(nodes) && cur < |nodes|
    ensures var (n2, d) := Walk(nodes, cur, comps);
      Walk(n2, cur, comps) == (n2, d)
    decreases |comps|
  {
    WalkSpec(nodes, cur, comps);
    var (n2, d) := Walk(nodes, cur, comps);
    if comps != [] {
      if comps[0] == "" {
        WalkIdempotent(nodes, cur, comps[1..]);
      } else {
        var name := comps[0];
        DescendSpec(nodes, cur, name);
        var (n1, next) := Descend(nodes, cur, name);
        WalkSpec(n1, next, comps[1..]);
        assert Walk(n1, next, comps[1..]) == (n2, d);
        // The rest of the walk starts past `cur`, so `cur` and its child list are as
        // the step left them, and the search finds `next` again.
        assert n2[cur] == n1[cur];
        FindChildStable(n1, n2, cur, name);
        var k :| 0 <= k < |n1[cur].children| && n1[cur].children[k] == next && FindChild(n1, cur, name) == Some(k);
        assert Descend(n2, cur, name) == (n2, next);
        WalkIdempotent(n1, next, comps[1..]);
      }
    }
  }

  /** Inserting an empty component anywhere (from "//" or a trailing '/') changes
      nothing. */
  lemma {:induction false} WalkSkipsEmpty(nodes: seq<Dir>, cur: nat, a: seq<string>, b: seq<string>)
    requires WellFormed(nodes) && cur < |nodes|
    ensures Walk(nodes, cur, a + [""] + b) == Walk(nodes, cur, a + b)
    decreases |a|
  {
    if a == [] {
      assert ([] + [""] + b)[1..] == b;
      assert [] + b == b;
    } else {
      assert (a + [""] + b)[0] == a[0] && (a + b)[0] == a[0];
      assert (a + [""] + b)[1..] == a[1..] + [""] + b;
      assert (a + b)[1..] == a[1..] + b;
      if a[0] == "" {
        WalkSkipsEmpty(nodes, cur, a[1..], b);
      } else {
        DescendSpec(nodes, cur, a[0]);
        var (n1, next) := Descend(nodes, cur, a[0]);
        WalkSkipsEmpty(n1, next, a[1..], b);
      }
    }
  }

  /** The components the walk descends into: the non-empty ones, in order. */
  function NonEmpty(comps: seq<string>): (r: seq<string>)
    ensures |r| <= |comps| && "" !in r
    decreases |comps|
  {
    if comps == [] then []
    else if comps[0] == "" then NonEmpty(comps[1..])
    else [comps[0]] + NonEmpty(comps[1..])
  }

  /** Following `names` from `cur` through existing directories only, each time to
      the first child of that name: the node reached, or None when some name is
      missing. */
  function Lookup(nodes: seq<Dir>, cur: nat, names: seq<string>): (r: Option<nat>)
    requires WellFormed(nodes) && cur < |nodes|
    ensures r.Some? ==> cur <= r.value < |nodes|
    ensures r.Some? && names != [] ==> nodes[r.value].name == names[|names| - 1]
    decreases |names|
  {
    if names == [] then Some(cur)
    else match FindChild(nodes, cur, names[0])
      case None => None
      case Some(k) => Lookup(nodes, nodes[cur].children[k], names[1..])
  }

  /** The node the walk returns is the one reached, in the tree it leaves behind, by
      following the non-empty components by name from `cur`. */
  lemma {:induction false} WalkReaches(nodes: seq<Dir>, cur: nat, comps: seq<string>)
    requires WellFormed(nodes) && cur < |nodes|
    ensures var (n2, d) := Walk(nodes, cur, comps);
      Lookup(n2, cur, NonEmpty(comps)) == Some(d)
    decreases |comps|
  {
    if comps != [] {
      if comps[0] == "" {
        WalkReaches(nodes, cur, comps[1..]);
      } else {
        var name := comps[0];
        DescendSpec(nodes, cur, name);
        var (n1, next) := Descend(nodes, cur, name);
        var (n2, d) := Walk(n1, next, comps[1..]);
        WalkSpec(n1, next, comps[1..]);
        WalkReaches(n1, next, comps[1..]);
        assert n2[cur] == n1[cur];
        FindChildStable(n1, n2, cur, name);
        var k :| 0 <= k < |n1[cur].children| && n1[cur].children[k] == next && FindChild(n1, cur, name) == Some(k);
        var names := NonEmpty(comps);
        assert names[0] == name && names[1..] == NonEmpty(comps[1..]);
      }
    }
  }

  /** When the directories named by the non-empty components already exist, the
      walk creates nothing and returns the one reached. */
  lemma {:induction false} WalkFindsExisting(nodes: seq<Dir>, cur: nat, comps: seq<string>)
    requires WellFormed(nodes) && cur < |nodes| && Lookup(nodes, cur, NonEmpty(comps)).Some?
    ensures Walk(nodes, cur, comps) == (nodes, Lookup(nodes, cur, NonEmpty(comps)).value)
    decreases |comps|
  {
    if comps != [] {
      if comps[0] == "" {
        WalkFindsExisting(nodes, cur, comps[1..]);
      } else {
        var names := NonEmpty(comps);
        assert names[0] == comps[0] && names[1..] == NonEmpty(comps[1..]);
        var k := FindChild(nodes, cur, comps[0]).value;
        WalkFindsExisting(nodes, nodes[cur].children[k], comps[1..]);
      }
    }
  }

  /** getDirectory (ui/web.go:46-74): split off the directory part, split it on
      '/', and, unless that gives a single component, walk from the root over all
      components but the first. */
  function GetDirectoryFrom(nodes: seq<Dir>, path: string): (r: (seq<Dir>, nat))
    requires WellFormed(nodes)
    ensures WellFormed(r.0) && r.1 < |r.0|
  {
    var components := Fields(Split(path).0);
    if |components| == 1 then (nodes, 0) else Walk(nodes, 0, components[1..])
  }

  /** A path with no '/' (its directory part is empty) gives the root, with the
      tree unchanged. */
  lemma {:induction false} GetDirectoryOfPlainName(nodes: seq<Dir>, path: string)
    requires WellFormed(nodes) && '/' !in path
    ensures GetDirectoryFrom(nodes, path) == (nodes, 0)
  {
    FieldsSingle(Split(path).0);
  }

  /** The directory part of a path that starts with a directory `x` ending in '/'
      is `x` followed by the directory part of the rest. */
  lemma {:induction false} SplitAfterDirectory(x: string, y: string)
    requires x != "" && x[|x| - 1] == '/'
    ensures Split(x + y).0 == x + Split(y).0
    decreases |y|
  {
    if y == [] {
      assert x + y == x;
    } else {
      var n := |y|;
      assert (x + y)[..|x + y| - 1] == x + y[..n - 1];
      if y[n - 1] != '/' {
        SplitAfterDirectory(x, y[..n - 1]);
      }
    }
  }

  /** The first component is always dropped, even when it is a real name: a path
      "w/rest" is looked up exactly as "/rest" is. */
  lemma {:induction false} GetDirectoryDropsFirstComponent(nodes: seq<Dir>, w: string, rest: string)
    requires WellFormed(nodes) && '/' !in w
    ensures GetDirectoryFrom(nodes, w + "/" + rest) == GetDirectoryFrom(nodes, "/" + rest)
  {
    var d := Split(rest).0;
    SplitAfterDirectory(w + "/", rest);
    SplitAfterDirectory("/", rest);
    assert w + "/" + rest == (w + "/") + rest;
    FieldsOfWord(w, d);
    FieldsOfWord("", d);
    assert "" + "/" + d == "/" + d;
    assert w + "/" + d == (w + "/") + d;
  }

  /** getDirectory the second time with the same path returns the same node and
      leaves the tree unchanged. */
  lemma {:induction false} GetDirectoryIdempotent(nodes: seq<Dir>, path: string)
    requires WellFormed(nodes)
    ensures var (n2, d) := GetDirectoryFrom(nodes, path);
      GetDirectoryFrom(n2, path) == (n2, d)
  {
    var components := Fields(Split(path).0);
    WalkSpec(nodes, 0, components[1..]);
    if |components| != 1 { WalkIdempotent(nodes, 0, components[1..]); }
  }

  /** getDirectory keeps the tree well formed, only adds directories, and keeps
      sibling names distinct when they were distinct before. */
  lemma {:induction false} GetDirectorySpec(nodes: seq<Dir>, path: string)
    requires WellFormed(nodes)
    ensures var (n2, d) := GetDirectoryFrom(nodes, path);
      WellFormed(n2) && Extends(nodes, n2) && d < |n2|
    ensures DistinctSiblings(nodes) ==> DistinctSiblings(GetDirectoryFrom(nodes, path).0)
  {
    var components := Fields(Split(path).0);
    WalkSpec(nodes, 0, components[1..]);
  }

  /** The directory names getDirectory follows from the root: the non-empty
      components of the path's directory part after the first one. */
  function DirectoryNames(path: string): (r: seq<string>)
    ensures "" !in r && forall k :: 0 <= k < |r| ==> '/' !in r[k]
  {
    var components := Fields(Split(path).0);
    NonEmptyKeepsPieces(components[1..]);
    assert forall x :: x in components[1..] ==> '/' !in x;
    NonEmpty(components[1..])
  }

  /** The non-empty components are among the components. */
  lemma {:induction false} NonEmptyKeepsPieces(comps: seq<string>)
    ensures forall x :: x in NonEmpty(comps) ==> x in comps
    decreases |comps|
  {
    if comps != [] {
      NonEmptyKeepsPieces(comps[1..]);
    }
  }

  /** getDirectory returns the directory reached from the root, in the tree it
      leaves behind, by following the path's directory names. */
  lemma {:induction false} GetDirectoryReaches(nodes: seq<Dir>, path: string)
    requires WellFormed(nodes)
    ensures var (n2, d) := GetDirectoryFrom(nodes, path);
      Lookup(n2, 0, DirectoryNames(path)) == Some(d)
  {
    var components := Fields(Split(path).0);
    if |components| == 1 {
      assert components[1..] == [];
    } else {
      WalkReaches(nodes, 0, components[1..]);
    }
  }

  /** When that directory already exists, getDirectory returns it and leaves the
      tree unchanged. */
  lemma {:induction false} GetDirectoryFindsExisting(nodes: seq<Dir>, path: string)
    requires WellFormed(nodes) && Lookup(nodes, 0, DirectoryNames(path)).Some?
    ensures GetDirectoryFrom(nodes, path) == (nodes, Lookup(nodes, 0, DirectoryNames(path)).value)
  {
    var components := Fields(Split(path).0);
    if |components| == 1 {
      assert components[1..] == [];
    } else {
      WalkFindsExisting(nodes, 0, components[1..]);
    }
  }

  /** The walk callback of SourceFilesHandler.ServeHTTP (ui/web.go:79-95) as a
      function of the tree: find or create the directory of the path below the
      source directory, then append the file there when its extension is listed. */
  function VisitFrom(nodes: seq<Dir>, sourcePath: string, exts: seq<string>, path: string): (r: seq<Dir>)
    requires WellFormed(nodes)
    ensures WellFormed(r)
  {
    var localPath := RemoveAll(path, sourcePath);
    var (n2, d) := GetDirectoryFrom(nodes, localPath);
    if HasMovieExtension(path, exts) then
      n2[d := n2[d].(files := n2[d].files + [File(Base(localPath), localPath)])]
    else n2
  }

  /** After the callback the tree is the one getDirectory built, except that the
      path's directory gained one File exactly when the path's extension is listed;
      that File's Path is the walked path with the source path removed and its
      Name is the base name of that. */
  lemma {:induction false} VisitSpec(nodes: seq<Dir>, sourcePath: string, exts: seq<string>, path: string)
    requires WellFormed(nodes)
    ensures var localPath := RemoveAll(path, sourcePath);
      var (n2, d) := GetDirectoryFrom(nodes, localPath);
      var r := VisitFrom(nodes, sourcePath, exts, path);
      SameShape(n2, r) &&
      (forall i :: 0 <= i < |r| && i != d ==> r[i].files == n2[i].files) &&
      r[d].files == if HasMovieExtension(path, exts) then n2[d].files + [File(Base(localPath), localPath)] else n2[d].files
  {
    var localPath := RemoveAll(path, sourcePath);
    var (n2, d) := GetDirectoryFrom(nodes, localPath);
    var f := File(Base(localPath), localPath);
    if HasMovieExtension(path, exts) {
      assert VisitFrom(nodes, sourcePath, exts, path) == n2[d := n2[d].(files := n2[d].files + [f])];
    } else {
      assert VisitFrom(nodes, sourcePath, exts, path) == n2;
    }
  }

  /** The same directories with the same names and children; only files may differ. */
  ghost predicate SameShape(a: seq<Dir>, b: seq<Dir>)
  {
    |a| == |b| && forall i :: 0 <= i < |b| ==> b[i].name == a[i].name && b[i].children == a[i].children
  }

  /** Adding files does not change sibling names. */
  lemma {:induction false} SameShapeKeepsSiblingsDistinct(a: seq<Dir>, b: seq<Dir>)
    requires WellFormed(a) && WellFormed(b) && SameShape(a, b) && DistinctSiblings(a)
    ensures DistinctSiblings(b)
  {
    forall i, k, l | 0 <= i < |b| && 0 <= k < l < |b[i].children|
      ensures b[b[i].children[k]].name != b[b[i].children[l]].name
    {
      assert a[i].children[k] == b[i].children[k] && a[i].children[l] == b[i].children[l];
    }
  }

  /** The callback keeps sibling names distinct. */
  lemma {:induction false} VisitKeepsSiblingsDistinct(nodes: seq<Dir>, sourcePath: string, exts: seq<string>, path: string)
    requires WellFormed(nodes) && DistinctSiblings(nodes)
    ensures DistinctSiblings(VisitFrom(nodes, sourcePath, exts, path))
  {
    var localPath := RemoveAll(path, sourcePath);
    GetDirectorySpec(nodes, localPath);
    VisitSpec(nodes, sourcePath, exts, path);
    SameShapeKeepsSiblingsDistinct(GetDirectoryFrom(nodes, localPath).0, VisitFrom(nodes, sourcePath, exts, path));
  }

  /** The tree after the callback has run for each walked path in turn. */
  function BuildFrom(nodes: seq<Dir>, sourcePath: string, exts: seq<string>, walked: seq<string>): (r: seq<Dir>)
    requires WellFormed(nodes)
    ensures WellFormed(r)
    decreases |walked|
  {
    if walked == [] then nodes
    else
      BuildFrom(VisitFrom(nodes, sourcePath, exts, walked[0]), sourcePath, exts, walked[1..])
  }

  /** The listing keeps the root named "/" at index 0, and its sibling names distinct. */
  lemma {:induction false} BuildSpec(nodes: seq<Dir>, sourcePath: string, exts: seq<string>, walked: seq<string>)
    requires WellFormed(nodes) && DistinctSiblings(nodes)
    ensures var r := BuildFrom(nodes, sourcePath, exts, walked);
      WellFormed(r) && DistinctSiblings(r) && r[0].name == nodes[0].name
    decreases |walked|
  {
    if walked != [] {
      VisitKeepsSiblingsDistinct(nodes, sourcePath, exts, walked[0]);
      VisitSpec(nodes, sourcePath, exts, walked[0]);
      GetDirectorySpec(nodes, RemoveAll(walked[0], sourcePath));
      BuildSpec(VisitFrom(nodes, sourcePath, exts, walked[0]), sourcePath, exts, walked[1..]);
    }
  }

  /** The tree of `Directory` values, held in an arena. */
  class DirectoryTree {
    var nodes: seq<Dir>

    ghost predicate Valid()
      reads this
    {
      WellFormed(nodes) && DistinctSiblings(nodes)
    }

    /** `var root Directory; root.Name = "/"` (ui/web.go:77-78). */
    constructor ()
      ensures Valid() && nodes == [Dir("/", [], [])]
    {
      nodes := [Dir("/", [], [])];
    }

    /** getDirectory (ui/web.go:46-74), advancing `current` through the arena and
        appending new children in place. */
    method GetDirectory(path: string) returns (d: nat)
      requires Valid()
      modifies this
      ensures Valid()
      ensures (nodes, d) == GetDirectoryFrom(old(nodes), path)
    {
      GetDirectorySpec(nodes, path);
      var (dirpath, _) := Split(path);
      var components := Fields(dirpath);
      if |components| == 1 {
        return 0;
      }
      var rest := components[1..];
      var tree := nodes;
      var current: nat := 0;
      assert rest[0..] == rest;
      for j := 0 to |rest|
        invariant WellFormed(tree) && current < |tree|
        invariant Walk(old(nodes), 0, rest) == Walk(tree, current, rest[j..])
      {
        assert rest[j..][1..] == rest[j + 1..];
        var component := rest[j];
        if component == "" {
          continue;
        }
        var children := tree[current].children;
        var target: Option<nat> := None;
        var i := 0;
        while i < |children|
          invariant 0 <= i <= |children|
          invariant forall k :: 0 <= k < i ==> tree[children[k]].name != component
        {
          if tree[children[i]].name == component {
            target := Some(children[i]);
            break;
          }
          i := i + 1;
        }
        DescendSpec(tree, current, component);
        if target.Some? {
          FindChildIsFirst(tree, current, component, i);
        } else {
          assert FindChild(tree, current, component).None?;
          var n := |tree|;
          tree := tree[current := tree[current].(children := children + [n])] + [Dir(component, [], [])];
          target := Some(n);
        }
        current := target.value;
      }
      nodes := tree;
      d := current;
    }

    /** The walk callback (ui/web.go:79-95) for one walked path. */
    method Visit(sourcePath: string, exts: seq<string>, path: string)
      requires Valid()
      modifies this
      ensures Valid()
      ensures nodes == VisitFrom(old(nodes), sourcePath, exts, path)
    {
      VisitKeepsSiblingsDistinct(nodes, sourcePath, exts, path);
      var localPath := RemoveAll(path, sourcePath);
      var dir := GetDirectory(localPath);
      var ext := ToLower(Ext(path));
      if ext == "" {
        return;
      }
      ext := ext[1..];
      var i := SearchStrings(exts, ext);
      if i >= |exts| || exts[i] != ext {
        return;
      }
      var f := File(Base(localPath), localPath);
      nodes := nodes[dir := nodes[dir].(files := nodes[dir].files + [f])];
    }
  }

  /** SourceFilesHandler.ServeHTTP (ui/web.go:76-99) without the JSON encoding: a
      root named "/", then the callback for every path the file-system walk yields,
      in walk order. */
  method ServeSourceFiles(sourcePath: string, exts: seq<string>, walked: seq<string>) returns (tree: DirectoryTree)
    ensures fresh(tree) && tree.Valid()
    ensures tree.nodes == BuildFrom([Dir("/", [], [])], sourcePath, exts, walked)
  {
    tree := new DirectoryTree();
    ghost var root := tree.nodes;
    for j := 0 to |walked|
      invariant fresh(tree) && tree.Valid()
      invariant BuildFrom(root, sourcePath, exts, walked) == BuildFrom(tree.nodes, sourcePath, exts, walked[j..])
    {
      assert walked[j..][1..] == walked[j + 1..];
      tree.Visit(sourcePath, exts, walked[j]);
    }
  }
}
