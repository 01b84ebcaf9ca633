# handbraked: a verified model of its decision logic

handbraked watches a directory for new movie files and transcodes each with
HandBrakeCLI. While a job runs, it sends progress percentages to browsers over
websockets, through a broadcast hub. A small web API lists the movie files
under a source directory as a JSON tree.

This project models three sequential cores of the program in Dafny and proves
what they promise:

- **Watcher and job supervisor** (`handbraked.go`):
  - which file-system events start a job: a create event whose lower-cased
    extension is in the list, sorted once at startup and searched with
    `sort.SearchStrings`;
  - the output file name;
  - the one-slash strip of the movie path;
  - the reader goroutine, which refills one reused 1024-byte buffer and sends
    the leftmost match of the pattern `\d+\.\d+` found in the whole buffer;
  - the two-second throttle of `HandleFile`.
- **Broadcast hub** (`ui/hub.go`, with the subscriber buffer of `ui/web.go`):
  - `run` handles one register, unregister or broadcast at a time;
  - a broadcast offers the message, without blocking, to each member's bounded
    FIFO buffer of 256 slots;
  - a member whose buffer is full is removed and its buffer closed.
- **Source-file tree** (`ui/web.go`). `getDirectory` finds or creates the
  directory node of a path. The walk callback of `SourceFilesHandler.ServeHTTP`
  appends every movie file to its node.

The files:

| file | module | what it holds |
|---|---|---|
| `options.dfy` | `Options` | the `Option` type |
| `paths.dfy` | `Paths` | Unix `filepath.Ext`, `Split` and `Base`, plus `strings.ToLower` (ASCII), `strings.Split` on "/" and `strings.Replace(s, pat, "", -1)`, each with its properties |
| `extensions.dfy` | `Extensions` | Go's string order, `sort.SearchStrings` as the `sort.Search` loop, the movie-extension list and the extension test |
| `progress.dfy` | `Progress` | the leftmost-longest matcher for `\d+\.\d+` and the reader loop over a 1024-byte `array` |
| `handbraked.dfy` | `Handbraked` | the event filter, output name, slash strip and `HandleFile`'s throttle loop |
| `hub.dfy` | `Hub` | `Connection` (the `send` buffer) and `MessageHub` (the member set) as classes, with `run` as a loop over requests |
| `sourcetree.dfy` | `SourceTree` | the directory tree as an arena of nodes addressed by index, with `getDirectory`, the walk callback and the listing as methods, each proved against pure functions |

Notes on how the model reads the code:

- **First progress value.** `HandleFile` starts `last` at the job's start
  (handbraked.go:116), so a value that arrives within two seconds of the start
  is suppressed. The value is not eligible automatically. The model follows
  the code, and `Handbraked.ThrottleExample` shows the suppression.
- **Two clock readings.** Each progress arrival carries two readings: `now`,
  used by the test at handbraked.go:119, and `stamp`, the second
  `time.Now()` at handbraked.go:123 that becomes the new `last`. They may
  differ by a second.
- **Stale buffer bytes.** The matcher scans all 1024 bytes of the reused
  buffer, so digits left over from an earlier read can be part of the sent
  text. `Progress.StaleBytesCanMatch` shows a concrete case.
- **The mpeg rename.** The output-name rule replaces the last three
  characters whatever the extension, so `x.mpeg` becomes `x.mm4v`.
  `Handbraked.OutputNameExamples` states it.
- **The first path component.** `getDirectory` always drops the first
  component of the directory part, even a real name: "w/rest" is filed
  exactly as "/rest" is (`SourceTree.GetDirectoryDropsFirstComponent`). The
  walked paths start with the source path, so the removal at ui/web.go:80
  normally leaves a leading '/'.
- **Strings** are sequences of characters compared character by character.
  This agrees with Go's byte-wise order for ASCII.
- **Progress values** are bytes (`Progress.byte`), because the reader works
  on a byte buffer.

## Model

| member | source | states |
|---|---|---|
| Paths.ToLower | handbraked.go:172 | ASCII lower-casing keeps the length, leaves no upper-case letter, and changes each character only by lowering an upper-case letter |
| Paths.ToLowerIdempotent | handbraked.go:172 | lower-casing twice is the same as once |
| Paths.Ext | handbraked.go:172 | an extension is no longer than the path and is empty or starts with '.'; `ExtIsLastDotSuffix` pins it down |
| Paths.ExtIsLastDotSuffix | handbraked.go:172 | `filepath.Ext` is the suffix of the path that starts at the last '.' of its final element, with no '.' or '/' after that dot; it is "" exactly when the final element has no '.' |
| Paths.Split | ui/web.go:48 | `filepath.Split`: the directory and file parts concatenate to the path, the file part has no '/', and the directory part is empty or ends in '/' |
| Paths.BaseIsFinalElement | ui/web.go:93 | `filepath.Base` is never empty; it is "/" or slash-free; it is "." for the empty path and the part after the last '/' for a path not ending in '/'; it is "/" exactly for a path made only of slashes |
| Paths.ExtIsSuffixOfBase | handbraked.go:58-59 | a path's extension is a suffix of its base name |
| Paths.Fields | ui/web.go:49 | `strings.Split(s, "/")` gives at least one piece, every piece is slash-free, and joining the pieces with '/' gives `s` back |
| Paths.FieldsJoin | ui/web.go:49 | splitting a '/'-join of slash-free pieces gives the pieces back |
| Paths.FieldsSingle | ui/web.go:49-52 | the split gives a single component exactly when the text has no '/' |
| Paths.RemoveAll | ui/web.go:80 | removing every occurrence of a pattern never makes a string longer |
| Paths.RemoveAllAbsent | ui/web.go:80 | a string in which the pattern does not occur is left unchanged |
| Paths.RemoveAllRoot | ui/web.go:80 | removing the root from root + rest, when the root does not occur in rest, leaves exactly rest |
| Extensions.BelowIrreflexive | handbraked.go:156 | no string sorts before itself |
| Extensions.BelowTransitive | handbraked.go:156 | Go's string order is transitive |
| Extensions.BelowTotal | handbraked.go:156 | of two different strings, one sorts before the other |
| Extensions.SearchRange | handbraked.go:177 | the halving loop of `sort.Search` over `[lo, hi)` returns an index in that range; `SearchRangeLowerBound` says which |
| Extensions.SearchStrings | handbraked.go:177 | `sort.SearchStrings` returns an index from 0 to the list's length; `SearchStringsLowerBound` says which |
| Extensions.SearchRangeLowerBound | handbraked.go:177 | the `sort.Search` loop on a sorted list ends where everything before is smaller than the key and nothing after is |
| Extensions.SearchStringsLowerBound | handbraked.go:177 | `sort.SearchStrings` on a sorted list returns the lower bound of the key |
| Extensions.Contains | handbraked.go:177-178 | the test `i < len && a[i] == x` accepts only listed strings, sorted list or not; `ContainsIsMembership` gives the converse on a sorted list |
| Extensions.ContainsIsMembership | handbraked.go:177-178 | on a sorted list, the index test `i < len && a[i] == x` holds exactly when `x` is in the list |
| Extensions.SortedMovieExtensionsIsSorted | handbraked.go:156 | the list after `sort.Strings` is sorted and is a permutation of the list declared at line 22 |
| Extensions.Candidate | handbraked.go:172-176 | there is no candidate exactly when the name has no extension; otherwise the candidate is the lower-cased extension without its '.', with no '.' or '/' in it |
| Extensions.HasMovieExtension | handbraked.go:172-178 | the extension check accepts only a name that has an extension whose lower-cased text after the '.' is listed, whether or not the list is sorted |
| Extensions.HasMovieExtensionIsMembership | handbraked.go:172-178 | with a sorted list, the extension test accepts a name exactly when it has an extension whose lower-cased text after the '.' is in the list |
| Extensions.ExtToLower | handbraked.go:172 | taking the extension commutes with lower-casing |
| Extensions.HasMovieExtensionIgnoresCase | handbraked.go:172-178 | a name and its lower-cased form get the same answer |
| Progress.MatchAt | handbraked.go:77 | a greedy attempt that succeeds covers at least three bytes (a digit, the '.', a digit) inside the text |
| Progress.FindFrom | handbraked.go:77 | a match found from position p starts at or after p and lies inside the text; `FindFromIsLeftmost` says it is the leftmost |
| Progress.FindFromIsLeftmost | handbraked.go:77 | scanning from p finds the leftmost match that starts at or after p, the longest one from that start, and finds nothing only when no match starts at or after p |
| Progress.FindMatch | handbraked.go:77 | a reported match spans at least three bytes inside the text |
| Progress.FindProgress | handbraked.go:77-80 | the progress text, when present, has at least three bytes and is no longer than the buffer |
| Progress.MatchAtIsLongest | handbraked.go:71-77 | the greedy attempt at a position succeeds exactly when some match of `\d+\.\d+` starts there, and then it returns the longest one |
| Progress.FindMatchIsLeftmostLongest | handbraked.go:77 | the matcher returns the leftmost-longest match when there is one, and nothing exactly when the text holds no match |
| Progress.LeftmostLongestIsMaximal | handbraked.go:77 | no digit touches the reported match on either side, so both digit runs are maximal |
| Progress.FindProgressIsMatchText | handbraked.go:77-80 | the sent text is the leftmost-longest match in the buffer; nothing is sent exactly when the buffer holds no match |
| Progress.Sent | handbraked.go:75-83 | the reader sends at most one value per read; `SentAreMatches` says what each value is |
| Progress.ReadProgress | handbraked.go:69-84 | the read loop over the reused 1024-byte array sends exactly what `Sent` describes: reads stop at `l == 0 && err != nil`, each read overwrites the first `l` bytes and keeps the rest, and a non-empty read sends the match in the whole buffer, if any |
| Progress.SentAreMatches | handbraked.go:75-81 | every value sent is the progress text found in the buffer as it stood right after some read k that returned bytes (the first k+1 reads folded into the buffer, `BufferAfter`); with `FindProgressIsMatchText` that is the leftmost-longest match of `\d+\.\d+` in that buffer |
| Progress.StaleBytesCanMatch | handbraked.go:75-81 | after reading "12.34 %" and then "7", the reader sends "12.34" and then "72.34", whose last digits are left over from the first read |
| Handbraked.ShouldHandle | handbraked.go:166-179 | only a create event whose name has an extension can start a job; `ShouldHandleIsFilter` gives the exact condition |
| Handbraked.ShouldHandleIsFilter | handbraked.go:166-179 | with the sorted list, exactly the create events whose lower-cased extension is listed start a job; every other event and every name without an extension is skipped |
| Handbraked.OutputName | handbraked.go:58-59 | the output name has the base name's length, keeps all but its last three characters, and ends in "m4v" |
| Handbraked.HandledFilesHaveOutputName | handbraked.go:172-179 | every file the watcher hands on has a base name of at least four characters, so the slice at line 59 is defined |
| Handbraked.OutputNameSwapsThreeLetterExtension | handbraked.go:58-59 | for a three-letter extension, the rule replaces the extension with ".m4v" and keeps the rest of the base name |
| Handbraked.OutputNameExamples | handbraked.go:58-59 | "x.mkv" becomes "x.m4v" and "x.mpeg" becomes "x.mm4v" |
| Handbraked.StripTrailingSlash | handbraked.go:151-153 | a final '/' is removed and any other path is unchanged |
| Handbraked.StripTrailingSlashRemovesOne | handbraked.go:151-153 | only one slash goes: the result still ends in '/' exactly when the path ended in two, and a path without a final '/' is a fixed point |
| Handbraked.Selected | handbraked.go:117-123 | the published arrivals are a strictly increasing sequence of arrival indices, so the updates come in arrival order |
| Handbraked.Publications | handbraked.go:125-130 | one update per selected arrival, in order, each with the file's base name and that arrival's value |
| Handbraked.HandleFile | handbraked.go:112-131 | the loop publishes, in order, one update per selected arrival, each carrying the file's base name and that arrival's value |
| Handbraked.ThrottleSpacing | handbraked.go:116-123 | the first publication comes at least two seconds after the job's start, and each later one at least two seconds after the clock reading taken at the previous one |
| Handbraked.ThrottleSuppresses | handbraked.go:116-123 | every arrival that is not published came less than two seconds after the last publication before it, or after the start |
| Handbraked.ThrottleExample | handbraked.go:116-130 | with the clock started at 0 and values at 1 s, 4 s and 7 s, only the second and third are published |
| Hub.Connection.constructor | ui/web.go:173 | a new subscriber buffer has 256 slots, is empty and is open |
| Hub.Connection.TrySend | ui/hub.go:33-35 | the non-blocking send queues the message at the back exactly when there is room, and changes nothing when the buffer is full |
| Hub.Connection.Close | ui/hub.go:37 | closing needs an open buffer, so no buffer is closed twice |
| Hub.Connection.Receive | ui/web.go:163 | the writer takes the oldest queued message, or ends once the buffer is closed and drained |
| Hub.MessageHub.constructor | ui/hub.go:17-22 | the hub starts with no connections |
| Hub.MessageHub.Register | ui/hub.go:27-28 | the connection is added and every other membership is unchanged |
| Hub.MessageHub.Unregister | ui/hub.go:29-30 | the connection is removed if present and nothing else changes, so unregistering twice is the same as once |
| Hub.MessageHub.Broadcast | ui/hub.go:31-39 | each member with room gets the message at the back of its queue and stays; each full member is removed, its buffer closed and its queue unchanged; no other connection is touched; every member stays open and within 256 |
| Hub.MessageHub.Step | ui/hub.go:26-40 | one turn of `run` does exactly the register, unregister or broadcast it received |
| Hub.MessageHub.Run | ui/hub.go:24-43 | the loop keeps members open and within capacity, and every member is an original one or was registered; with only broadcasts, each original member ends as `Delivered` says |
| Hub.DeliveredStep | ui/hub.go:31-39 | the closed form `Delivered` (the first `room` messages, with eviction once one does not fit) advances by exactly one broadcast step |
| Hub.ReplayIsDelivered | ui/hub.go:31-39 | replaying broadcasts one at a time on an open member gives the closed form `Delivered` |
| SourceTree.FindChildFrom | ui/web.go:59-66 | the child search returns the first child with the name, and nothing only when no child has it |
| SourceTree.Descend | ui/web.go:59-71 | one step of the walk adds at most one node to the arena and returns a node inside it; `DescendSpec` says which |
| SourceTree.DescendSpec | ui/web.go:59-71 | a step returns the existing child of that name without changing the tree; otherwise it appends one directory with that name and no files or children, at the end of the arena and of the current node's children; other nodes and earlier children are unchanged |
| SourceTree.DescendKeepsSiblingsDistinct | ui/web.go:59-70 | a child is created only when no sibling has the name, so sibling names stay distinct |
| SourceTree.Walk | ui/web.go:55-73 | the walk keeps the arena well formed, never shrinks it, and ends at a node at or past where it started; `WalkReaches` says which node |
| SourceTree.WalkSpec | ui/web.go:54-73 | the walk only extends the tree (names and files kept, child lists extended at the end), leaves nodes before the start unchanged, and keeps sibling names distinct |
| SourceTree.WalkIdempotent | ui/web.go:59-73 | walking the same components again from the same node returns the same node and changes nothing |
| SourceTree.WalkSkipsEmpty | ui/web.go:55-58 | an empty component anywhere in the list changes nothing |
| SourceTree.NonEmpty | ui/web.go:55-58 | the components the walk descends into are the non-empty ones, never more than there are components |
| SourceTree.Lookup | ui/web.go:59-71 | following names through existing directories only, each time to the first child of that name, reaches a node whose name is the last name followed |
| SourceTree.WalkReaches | ui/web.go:55-73 | the node the walk returns is the one reached, in the tree it leaves behind, by following the non-empty components by name from the start |
| SourceTree.WalkFindsExisting | ui/web.go:55-73 | when the directories named by the non-empty components already exist, the walk creates nothing and returns the one reached |
| SourceTree.GetDirectoryFrom | ui/web.go:46-74 | `getDirectory` returns a node of the well-formed tree it leaves behind; `GetDirectoryReaches` says which node |
| SourceTree.DirectoryNames | ui/web.go:48-58 | the names `getDirectory` follows from the root are the non-empty pieces of the directory part after the first one, none containing '/' |
| SourceTree.GetDirectoryOfPlainName | ui/web.go:48-52 | a path with no '/' gives the root and leaves the tree unchanged |
| SourceTree.GetDirectoryDropsFirstComponent | ui/web.go:48-55 | the first component is always dropped: "w/rest" is looked up exactly as "/rest" is |
| SourceTree.GetDirectoryIdempotent | ui/web.go:46-74 | calling `getDirectory` twice with the same path returns the same node, and the second call leaves the tree unchanged |
| SourceTree.GetDirectorySpec | ui/web.go:46-74 | `getDirectory` keeps the tree well formed and sibling names distinct, and only adds directories |
| SourceTree.GetDirectoryReaches | ui/web.go:46-74 | `getDirectory` returns the directory reached from the root, in the tree it leaves behind, by following the path's directory names |
| SourceTree.GetDirectoryFindsExisting | ui/web.go:46-74 | when that directory already exists, `getDirectory` returns it and leaves the tree unchanged |
| SourceTree.VisitFrom | ui/web.go:79-95 | the callback keeps the tree well formed; `VisitSpec` says what it adds |
| SourceTree.VisitSpec | ui/web.go:79-95 | the callback builds the walked path's directory; that directory gains one File, with Path the local path and Name its base, exactly when the extension test accepts the path; nothing else changes |
| SourceTree.VisitKeepsSiblingsDistinct | ui/web.go:79-95 | the callback keeps sibling names distinct |
| SourceTree.BuildFrom | ui/web.go:79-96 | running the callback over every walked path keeps the tree well formed; `BuildSpec` adds distinct sibling names and the root's name |
| SourceTree.BuildSpec | ui/web.go:76-96 | after all walked paths, the tree is well formed, sibling names are distinct, and the root keeps its name |
| SourceTree.DirectoryTree.constructor | ui/web.go:77-78 | the listing starts from a root named "/" with no files or children |
| SourceTree.DirectoryTree.GetDirectory | ui/web.go:46-74 | the loop over components, with its inner child search and in-place append, produces the tree and node of `GetDirectoryFrom` |
| SourceTree.DirectoryTree.Visit | ui/web.go:79-95 | the callback body, the extension filter included, produces the tree of `VisitFrom` |
| SourceTree.ServeSourceFiles | ui/web.go:76-99 | the handler runs the callback on every walked path in order, starting from a fresh root |

## Left out

- Subprocess execution in `processFile` (handbraked.go:54-105): running HandBrakeCLI, `StdoutPipe`, `Start`, `Wait` and `os.Rename` are process and file I/O. The transcoder's output is an input, given as the results of successive reads.
- The `move` fallback (handbraked.go:30-52) is file I/O and is not modelled. As written it calls `io.Copy(oldFile, newFile)` with its arguments reversed, so it does not copy the temporary file to its destination.
- `filepath.Join` for the output and temporary paths (handbraked.go:60-61) only builds path strings for that I/O.
- Float conversion: `strconv.ParseFloat(..., 32)` (handbraked.go:78) and the `float64` progress field. A progress value is the matched text. A match too large for a float32, which ParseFloat rejects, is therefore counted as sent.
- The compile-error branch of the pattern (handbraked.go:72-74) cannot happen for a constant pattern.
- JSON encoding of status updates and of the tree (handbraked.go:126-129, ui/web.go:97-98), including the skipped publication on an encoding error.
- Goroutines and channels. The reader goroutine's channel, `defer close(c)`, the unbuffered hub channels, `go c.ws.Close()` and blocking are not modelled. Requests reach `run` as a finite sequence, and progress values reach `HandleFile` as a finite sequence of arrivals.
- The websocket `reader` loop and the sending side of `writer` (ui/web.go:150-170). Only one receive from the buffer is modelled (`Hub.Connection.Receive`).
- Hub.MessageHub.Run: it states the closed form only for runs made entirely of broadcasts, with nothing draining the buffers. Mixed runs are covered one request at a time by `Step`.
- Hub.Connection: the buffer is a sequence with a capacity, not the Go channel's internal ring buffer.
- The clock: each `time.Now().Unix()` reading is an integer input.
- `os.Remove` after a job (handbraked.go:133-135), flag parsing, the fsnotify watcher setup, the initial scan, HTTP registration and serving, and the symlink in the queue handler: setup and I/O glue.
- `filepath.Walk` is a traversal of the real file system. The walked paths are an input sequence, and the callback's `info` and `err` arguments are ignored by the code.
- `common/common.go` is a wrapper around `filepath.Glob` over the real file system, and `static/js/app.js` is browser code; neither is part of this model.
- Paths.ToLower: only ASCII letters are lower-cased. Unicode case mapping is not modelled.
- Paths.Ext, Paths.Split, Paths.Base: Unix paths only; there are no volume names.
