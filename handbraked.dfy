/** The decision logic of the watcher and the job supervisor in handbraked.go:
    which file-system events start a job, the output file name, the movie-path
    normalisation, and the 2-second throttle of HandleFile. Clocks are inputs:
    every reading of time.Now().Unix() is an integer carried by the data. */
module Handbraked {
  import opened Paths
  import opened Extensions
  import Progress

  /** One fsnotify event: the file name and whether IsCreate() holds for it. */
  datatype FileEvent = FileEvent(name: string, isCreate: bool)

  /** The watcher goroutine's test for one event (handbraked.go:167-179): a job is
      started only for a create event that passes the extension check. */
  predicate ShouldHandle(ev: FileEvent, exts: seq<string>)
    ensures ShouldHandle(ev, exts) ==> ev.isCreate && Ext(ev.name) != ""
  {
    ev.isCreate && HasMovieExtension(ev.name, exts)
  }

  /** With the list sorted, exactly the create events with a listed extension reach
      HandleFile; every other event, and every name without an extension, is skipped. */
  lemma {:induction false} ShouldHandleIsFilter(ev: FileEvent, exts: seq<string>)
    requires Sorted(exts)
    ensures ShouldHandle(ev, exts) <==> ev.isCreate && Ext(ev.name) != "" && ToLower(Ext(ev.name))[1..] in exts
  {
    HasMovieExtensionIsMembership(ev.name, exts);
  }

  /** handbraked.go:58-59: the last three characters of the base name are replaced
      by "m4v"; the base name must have at least three characters. */
  function OutputName(base: string): (r: string)
    requires |base| >= 3
    ensures |r| == |base|
    ensures r[..|r| - 3] == base[..|base| - 3] && r[|r| - 3..] == "m4v"
  {
    base[..|base| - 3] + "m4v"
  }

  lemma MovieExtensionsAreLong()
    ensures forall x :: x in SortedMovieExtensions ==> |x| >= 3
  {
  }

  /** Every file the watcher hands on has a base name long enough for OutputName:
      a listed extension has at least three letters after its '.'. */
  lemma {:induction false} HandledFilesHaveOutputName(ev: FileEvent)
    requires ShouldHandle(ev, SortedMovieExtensions)
    ensures |Base(ev.name)| >= 4
  {
    SortedMovieExtensionsIsSorted();
    ShouldHandleIsFilter(ev, SortedMovieExtensions);
    MovieExtensionsAreLong();
    assert |ToLower(Ext(ev.name))[1..]| >= 3;
    ExtIsSuffixOfBase(ev.name);
  }

  /** For a three-letter extension the rule swaps the extension for ".m4v" and keeps
      the rest of the name. */
  lemma {:induction false} OutputNameSwapsThreeLetterExtension(path: string)
    requires |Ext(path)| == 4
    ensures |Base(path)| >= 4
    ensures OutputName(Base(path)) == Base(path)[..|Base(path)| - 4] + ".m4v"
  {
    ExtIsSuffixOfBase(path);
    ExtIsLastDotSuffix(path);
    var b := Base(path);
    assert b[|b| - 4] == '.';
    assert b[..|b| - 3] == b[..|b| - 4] + ".";
  }

  /** The examples: "x.mkv" becomes "x.m4v", while the four-letter extension of
      "x.mpeg" keeps its first letter and gives "x.mm4v". */
  lemma OutputNameExamples()
    ensures OutputName("x.mkv") == "x.m4v"
    ensures OutputName("x.mpeg") == "x.mm4v"
  {
  }

  /** handbraked.go:151-153: one final '/' is dropped from the (non-empty) movie path. */
  function StripTrailingSlash(path: string): (r: string)
    requires |path| > 0
    ensures path[|path| - 1] == '/' ==> r + "/" == path
    ensures path[|path| - 1] != '/' ==> r == path
  {
    if path[|path| - 1] == '/' then path[..|path| - 1] else path
  }

  /** Only one slash goes: the result still ends in '/' exactly when the path ended
      in two of them, and a path without a final '/' is a fixed point. */
  lemma {:induction false} StripTrailingSlashRemovesOne(path: string)
    requires |path| > 0
    ensures var r := StripTrailingSlash(path);
      |r| >= |path| - 1 &&
      ((|r| > 0 && r[|r| - 1] == '/') <==> (|path| >= 2 && path[|path| - 1] == '/' && path[|path| - 2] == '/'))
    ensures path[|path| - 1] != '/' ==> StripTrailingSlash(StripTrailingSlash(path)) == StripTrailingSlash(path)
  {
  }

  /** One value received from processFile's channel: the progress text, the clock
      when it arrived (`now`, handbraked.go:119), and the clock read again when it
      is published (`stamp`, handbraked.go:123). */
  datatype Arrival = Arrival(value: seq<Progress.byte>, now: int, stamp: int)

  /** The status payload: the file's base name and its progress. */
  datatype StatusUpdate = StatusUpdate(name: string, progress: seq<Progress.byte>)

  /** Indices, from `i` on, of the arrivals HandleFile publishes when the clock of
      the last publication (or of the job's start) reads `last`. */
  function Selected(last: int, arrivals: seq<Arrival>, i: nat): (r: seq<nat>)
    requires i <= |arrivals|
    ensures forall k :: 0 <= k < |r| ==> i <= r[k] < |arrivals|
    ensures forall k, l :: 0 <= k < l < |r| ==> r[k] < r[l]
    decreases |arrivals| - i
  {
    if i == |arrivals| then []
    else if arrivals[i].now - last < 2 then Selected(last, arrivals, i + 1)
    else [i] + Selected(arrivals[i].stamp, arrivals, i + 1)
  }

  /** The updates for the selected arrivals, in order. */
  function Publications(name: string, arrivals: seq<Arrival>, sel: seq<nat>): (r: seq<StatusUpdate>)
    requires forall k :: 0 <= k < |sel| ==> sel[k] < |arrivals|
    ensures |r| == |sel|
    ensures forall k :: 0 <= k < |r| ==> r[k] == StatusUpdate(name, arrivals[sel[k]].value)
  {
    seq(|sel|, k requires 0 <= k < |sel| => StatusUpdate(name, arrivals[sel[k]].value))
  }

  /** HandleFile's loop over the progress channel (handbraked.go:112-131); `start`
      is the clock at the job's start. */
  method HandleFile(file: string, start: int, arrivals: seq<Arrival>) returns (published: seq<StatusUpdate>)
    ensures published == Publications(Base(file), arrivals, Selected(start, arrivals, 0))
  {
    var status := StatusUpdate(Base(file), []);
    var last := start;
    published := [];
    for i := 0 to |arrivals|
      invariant Publications(status.name, arrivals, Selected(start, arrivals, 0))
        == published + Publications(status.name, arrivals, Selected(last, arrivals, i))
      invariant status.name == Base(file)
    {
      ghost var rest := Selected(arrivals[i].stamp, arrivals, i + 1);
      var now := arrivals[i].now;
      if now - last < 2 {
        continue;
      }
      last := arrivals[i].stamp;
      status := status.(progress := arrivals[i].value);
      assert Publications(status.name, arrivals, [i] + rest)
        == [status] + Publications(status.name, arrivals, rest);
      published := published + [status];
    }
  }

  /** Publications are at least two seconds apart: the first comes two seconds after
      the job's start, each later one two seconds after the clock was read at the
      previous one. */
  lemma {:induction false} ThrottleSpacing(last: int, arrivals: seq<Arrival>, i: nat)
    requires i <= |arrivals|
    ensures var r := Selected(last, arrivals, i);
      |r| > 0 ==> arrivals[r[0]].now - last >= 2
    ensures var r := Selected(last, arrivals, i);
      forall k :: 0 <= k < |r| - 1 ==> arrivals[r[k + 1]].now - arrivals[r[k]].stamp >= 2
    decreases |arrivals| - i
  {
    if i < |arrivals| {
      if arrivals[i].now - last < 2 {
        ThrottleSpacing(last, arrivals, i + 1);
      } else {
        ThrottleSpacing(arrivals[i].stamp, arrivals, i + 1);
      }
    }
  }

  /** The index after the `k`-th selected arrival's successor: the next selected
      index, or the end of the arrivals. */
  function NextSelected(r: seq<nat>, k: nat, end: nat): nat
    requires k < |r|
  {
    if k + 1 < |r| then r[k + 1] else end
  }

  /** Every arrival that is not published is suppressed: it came less than two
      seconds after the clock of the last publication before it (or of the start). */
  lemma ThrottleSuppresses(last: int, arrivals: seq<Arrival>, i: nat)
    requires i <= |arrivals|
    ensures var r := Selected(last, arrivals, i);
      forall m :: i <= m < (if |r| > 0 then r[0] else |arrivals|) ==> arrivals[m].now - last < 2
    ensures var r := Selected(last, arrivals, i);
      forall k, m :: 0 <= k < |r| && r[k] < m < NextSelected(r, k, |arrivals|) ==>
        arrivals[m].now - arrivals[r[k]].stamp < 2
  {
    ThrottleSuppressesFirst(last, arrivals, i);
    ThrottleSuppressesBetween(last, arrivals, i);
  }

  /** The arrivals before the first publication came within two seconds of `last`. */
  lemma {:induction false} ThrottleSuppressesFirst(last: int, arrivals: seq<Arrival>, i: nat)
    requires i <= |arrivals|
    ensures var r := Selected(last, arrivals, i);
      forall m :: i <= m < (if |r| > 0 then r[0] else |arrivals|) ==> arrivals[m].now - last < 2
    decreases |arrivals| - i
  {
    if i < |arrivals| && arrivals[i].now - last < 2 {
      ThrottleSuppressesFirst(last, arrivals, i + 1);
    }
  }

  /** The arrivals after a publication and before the next one came within two
      seconds of the clock read at that publication. */
  lemma {:induction false} ThrottleSuppressesBetween(last: int, arrivals: seq<Arrival>, i: nat)
    requires i <= |arrivals|
    ensures var r := Selected(last, arrivals, i);
      forall k, m :: 0 <= k < |r| && r[k] < m < NextSelected(r, k, |arrivals|) ==>
        arrivals[m].now - arrivals[r[k]].stamp < 2
    decreases |arrivals| - i
  {
    if i < |arrivals| {
      var r := Selected(last, arrivals, i);
      if arrivals[i].now - last < 2 {
        ThrottleSuppressesBetween(last, arrivals, i + 1);
        assert r == Selected(last, arrivals, i + 1);
      } else {
        var stamp := arrivals[i].stamp;
        var rest := Selected(stamp, arrivals, i + 1);
        ThrottleSuppressesFirst(stamp, arrivals, i + 1);
        ThrottleSuppressesBetween(stamp, arrivals, i + 1);
        assert r == [i] + rest;
        forall k, m | 0 <= k < |r| && r[k] < m < NextSelected(r, k, |arrivals|)
          ensures arrivals[m].now - arrivals[r[k]].stamp < 2
        {
          if k > 0 {
            assert r[k] == rest[k - 1];
            assert NextSelected(r, k, |arrivals|) == NextSelected(rest, k - 1, |arrivals|);
          }
        }
      }
    }
  }

  /** The end-to-end example with the clock starting at 0: values at 1 s, 4 s and
      7 s. The first comes within two seconds of the start and is suppressed; the
      other two are published. */
  lemma {:induction false} ThrottleExample(a: seq<Progress.byte>, b: seq<Progress.byte>, c: seq<Progress.byte>)
    ensures var arrivals := [Arrival(a, 1, 1), Arrival(b, 4, 4), Arrival(c, 7, 7)];
      Publications("movie.mkv", arrivals, Selected(0, arrivals, 0))
        == [StatusUpdate("movie.mkv", b), StatusUpdate("movie.mkv", c)]
  {
    var arrivals := [Arrival(a, 1, 1), Arrival(b, 4, 4), Arrival(c, 7, 7)];
    assert Selected(7, arrivals, 3) == [];
    assert Selected(4, arrivals, 2) == [2];
    assert Selected(0, arrivals, 1) == [1, 2];
    assert Selected(0, arrivals, 0) == [1, 2];
  }
}
