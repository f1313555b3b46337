/**
 * The checker's main pass: collect every discovered entry whose base name is
 * invalid, then walk that list backwards, reporting each entry and, when
 * renaming is enabled, renaming it in place to its curated name.
 *
 * The recursive walk of the real directory is replaced by `discovered`, the
 * sequence of entries in the order the walk yields them; logging becomes the
 * returned sequence of events. The loop itself is stated for any function
 * `target` that gives the path an entry is renamed to; the checker's own
 * target is `Target(subString)`.
 */
module Scan {
  import opened PyStrings
  import opened NtfsNames
  import opened FileTree

  /** The two log lines of the pass. */
  datatype Event =
    | InvalidPath(path: Path)     // "Invalid path: '...'"
    | RenamedTo(newPath: Path)    // "Renamed to '...'"

  /** What a pass leaves behind: the tree, the log, and the error that ended it, if any. */
  datatype RunResult = RunResult(entries: set<Path>, log: seq<Event>, error: Option<RenameError>)

  /** The list comprehension that builds `paths_to_rename`. */
  function PathsToRename(discovered: seq<Path>): (r: seq<Path>)
    ensures |r| <= |discovered|
    ensures forall p :: p in r <==> p in discovered && HasInvalidName(BaseName(p))
  {
    if discovered == [] then []
    else
      var rest := PathsToRename(discovered[1..]);
      assert forall p :: p in discovered <==> p == discovered[0] || p in discovered[1..];
      if HasInvalidName(BaseName(discovered[0])) then [discovered[0]] + rest else rest
  }

  /**
   * The comprehension works entry by entry: it keeps discovery order and
   * multiplicity, so filtering a concatenation filters each part.
   */
  lemma {:induction false} PathsToRenameAppend(a: seq<Path>, b: seq<Path>)
    ensures PathsToRename(a + b) == PathsToRename(a) + PathsToRename(b)
  {
    if a == [] {
      assert a + b == b;
    } else {
      assert (a + b)[0] == a[0];
      assert (a + b)[1..] == a[1..] + b;
      PathsToRenameAppend(a[1..], b);
    }
  }

  /** A single discovered entry is kept, once, exactly when its base name is invalid. */
  lemma PathsToRenameSingle(p: Path)
    ensures PathsToRename([p]) == if HasInvalidName(BaseName(p)) then [p] else []
  {
    assert [p][1..] == [];
  }

  /** Python's `xs[::-1]`. */
  function Reverse<T>(xs: seq<T>): (r: seq<T>)
    ensures |r| == |xs|
    ensures forall i :: 0 <= i < |xs| ==> r[i] == xs[|xs| - 1 - i]
  {
    if xs == [] then [] else Reverse(xs[1..]) + [xs[0]]
  }

  /** `path.parent / get_curated_name(path.name, sub_string)`. */
  function RenameTarget(path: Path, subString: string): (r: Path)
    ensures path != [] ==> StaysInDirectory(path, r)
  {
    Join(Parent(path), GetCuratedName(BaseName(path), subString))
  }

  /** The checker's rename target, as a function of the entry's path. */
  function Target(subString: string): Path -> Path {
    path => RenameTarget(path, subString)
  }

  /** `q` is `p`'s directory itself, or a sibling path of `p` in that directory. */
  predicate StaysInDirectory(p: Path, q: Path) {
    q == Parent(p) || (q != [] && Parent(q) == Parent(p))
  }

  /**
   * The target stays in the same directory and only its last segment changes,
   * to the curated name; a curated name that is empty or "." makes the target
   * the directory itself.
   */
  lemma RenameTargetShape(path: Path, subString: string)
    requires path != []
    ensures var curated := GetCuratedName(path[|path| - 1], subString);
      var r := RenameTarget(path, subString);
      && (curated != "" && curated != "." ==>
            |r| == |path| && r[..|r| - 1] == path[..|path| - 1] && r[|r| - 1] == curated)
      && (curated == "" || curated == "." ==> r == path[..|path| - 1])
      && StaysInDirectory(path, r)
  {
  }

  /**
   * One turn of the loop: report `path` and, when renaming, rename it to
   * `target(path)`. A failed rename ends the pass with its error (the script
   * lets the OSError escape); the report made before it stays in the log.
   */
  function Step(entries: set<Path>, path: Path, target: Path -> Path, rename: bool): (r: RunResult)
    ensures 1 <= |r.log| <= 2 && r.log[0] == InvalidPath(path)
    ensures !rename ==> r == RunResult(entries, [InvalidPath(path)], None)
    ensures r.error.Some? ==> r.entries == entries && r.log == [InvalidPath(path)]
    ensures rename && path != [] ==>
      var t := TryRename(entries, path, target(path));
      && (t.Err? ==> r.error == Some(t.error))
      && (t.Ok? ==> r == RunResult(t.value, [InvalidPath(path), RenamedTo(target(path))], None))
  {
    if !rename || path == [] then RunResult(entries, [InvalidPath(path)], None)
    else
      var newPath := target(path);
      var attempt := TryRename(entries, path, newPath);
      if attempt.Err? then RunResult(entries, [InvalidPath(path)], Some(attempt.error))
      else RunResult(attempt.value, [InvalidPath(path), RenamedTo(newPath)], None)
  }

  /** The pass over `order` (already reversed), one entry after the other. */
  function Run(entries: set<Path>, order: seq<Path>, target: Path -> Path, rename: bool): (r: RunResult)
    ensures r.error.Some? ==> rename
    decreases |order|
  {
    if order == [] then RunResult(entries, [], None)
    else
      var first := Step(entries, order[0], target, rename);
      if first.error.Some? then first
      else
        var rest := Run(first.entries, order[1..], target, rename);
        RunResult(rest.entries, first.log + rest.log, rest.error)
  }

  /**
   * The `__main__` pass: `discovered` stands for `Path(base_path).rglob("*")`
   * and `fs` for the filesystem below the base directory.
   */
  method ScanTree(fs: FileSystem, discovered: seq<Path>, subString: string, rename: bool)
    returns (log: seq<Event>, error: Option<RenameError>)
    requires fs.Valid()
    modifies fs
    ensures fs.Valid()
    ensures Run(old(fs.entries), Reverse(PathsToRename(discovered)), Target(subString), rename)
         == RunResult(fs.entries, log, error)
    ensures !rename ==> fs.entries == old(fs.entries)
  {
    var pathsToRename := PathsToRename(discovered);
    log, error := ProcessPaths(fs, Reverse(pathsToRename), Target(subString), rename);
  }

  /** The `for` loop over `paths_to_rename[::-1]`. */
  method ProcessPaths(fs: FileSystem, order: seq<Path>, target: Path -> Path, rename: bool)
    returns (log: seq<Event>, error: Option<RenameError>)
    requires fs.Valid()
    modifies fs
    ensures fs.Valid()
    ensures Run(old(fs.entries), order, target, rename) == RunResult(fs.entries, log, error)
    ensures !rename ==> fs.entries == old(fs.entries)
  {
    ghost var start := fs.entries;
    ghost var whole := Run(start, order, target, rename);
    log, error := [], None;
    var remaining := order;
    while remaining != []
      invariant fs.Valid()
      invariant !rename ==> fs.entries == start
      invariant var rest := Run(fs.entries, remaining, target, rename);
        whole == RunResult(rest.entries, log + rest.log, rest.error)
      decreases |remaining|
    {
      ghost var logBefore := log;
      var events, failure := ProcessPath(fs, remaining[0], target, rename);
      log := log + events;
      if failure.Some? {
        error := failure;
        return;
      }
      ghost var rest := Run(fs.entries, remaining[1..], target, rename);
      assert logBefore + (events + rest.log) == log + rest.log;
      remaining := remaining[1..];
    }
    assert log + [] == log;
  }

  /** The body of the loop for one path. */
  method ProcessPath(fs: FileSystem, path: Path, target: Path -> Path, rename: bool)
    returns (events: seq<Event>, error: Option<RenameError>)
    requires fs.Valid()
    modifies fs
    ensures fs.Valid()
    ensures Step(old(fs.entries), path, target, rename) == RunResult(fs.entries, events, error)
  {
    events := [InvalidPath(path)];
    error := None;
    if rename && path != [] {
      var newPath := target(path);
      error := fs.Rename(path, newPath);
      if error == None {
        events := events + [RenamedTo(newPath)];
      }
    }
  }

  /** The entries the log reports as invalid, in the order it reports them. */
  function Reported(log: seq<Event>): seq<Path> {
    if log == [] then []
    else if log[0].InvalidPath? then [log[0].path] + Reported(log[1..])
    else Reported(log[1..])
  }

  lemma {:induction false} ReportedAppend(a: seq<Event>, b: seq<Event>)
    ensures Reported(a + b) == Reported(a) + Reported(b)
  {
    if a == [] {
      assert a + b == b;
    } else {
      assert (a + b)[1..] == a[1..] + b;
      ReportedAppend(a[1..], b);
    }
  }

  /** Without renaming the pass changes nothing, never fails, and reports all of `order`. */
  lemma {:induction false} RunDryRun(entries: set<Path>, order: seq<Path>, target: Path -> Path)
    ensures var r := Run(entries, order, target, false);
      r.entries == entries && r.error == None && Reported(r.log) == order
      && |r.log| == |order|
    decreases |order|
  {
    if order != [] {
      var rest := Run(entries, order[1..], target, false);
      RunDryRun(entries, order[1..], target);
      ReportedAppend([InvalidPath(order[0])], rest.log);
    }
  }

  /** A step reports exactly its own path. */
  lemma StepReports(entries: set<Path>, path: Path, target: Path -> Path, rename: bool)
    ensures Reported(Step(entries, path, target, rename).log) == [path]
  {
    var log := Step(entries, path, target, rename).log;
    var one := [InvalidPath(path)];
    assert Reported(one) == [path] by {
      assert one[1..] == [];
    }
    if log != one {
      var newPath := target(path);
      assert log == one + [RenamedTo(newPath)];
      assert log[1..] == [RenamedTo(newPath)];
      assert log[1..][1..] == [];
    }
  }

  /**
   * The entries reported are a prefix of `order`: all of it when the pass
   * completes, and, when a rename fails, a non-empty one (which entry failed
   * is `RunStopsAtFailedRename`).
   */
  lemma {:induction false} RunReportsInOrder(entries: set<Path>, order: seq<Path>, target: Path -> Path, rename: bool)
    ensures var r := Run(entries, order, target, rename);
      var reported := Reported(r.log);
      && |reported| <= |order| && reported == order[..|reported|]
      && (r.error == None ==> reported == order)
      && (r.error != None ==> rename && |reported| > 0)
    decreases |order|
  {
    if order != [] {
      var r := Run(entries, order, target, rename);
      var first := Step(entries, order[0], target, rename);
      StepReports(entries, order[0], target, rename);
      if first.error == None {
        var rest := Run(first.entries, order[1..], target, rename);
        assert r == RunResult(rest.entries, first.log + rest.log, rest.error);
        RunReportsInOrder(first.entries, order[1..], target, rename);
        ReportedAppend(first.log, rest.log);
        var tail := Reported(rest.log);
        assert Reported(r.log) == [order[0]] + tail;
        assert [order[0]] + order[1..][..|tail|] == order[..1 + |tail|];
      } else {
        assert r == first;
        assert Reported(r.log) == order[..1];
      }
    }
  }

  /**
   * A pass that stops on an error stops at the last entry it reported: that
   * entry's rename, tried on the tree the pass leaves, gives the error.
   */
  lemma {:induction false} RunStopsAtFailedRename(entries: set<Path>, order: seq<Path>, target: Path -> Path, rename: bool)
    ensures var r := Run(entries, order, target, rename);
      var reported := Reported(r.log);
      r.error.Some? ==>
        && |reported| > 0
        && TryRename(r.entries, reported[|reported| - 1], target(reported[|reported| - 1])) == Err(r.error.value)
    decreases |order|
  {
    if order != [] {
      var r := Run(entries, order, target, rename);
      var first := Step(entries, order[0], target, rename);
      StepReports(entries, order[0], target, rename);
      if first.error == None {
        var rest := Run(first.entries, order[1..], target, rename);
        assert r == RunResult(rest.entries, first.log + rest.log, rest.error);
        RunStopsAtFailedRename(first.entries, order[1..], target, rename);
        ReportedAppend(first.log, rest.log);
        if rest.error.Some? {
          var tail := Reported(rest.log);
          assert Reported(r.log) == [order[0]] + tail;
          assert Reported(r.log)[|Reported(r.log)| - 1] == tail[|tail| - 1];
        }
      } else {
        assert r == first;
        assert Reported(r.log) == [order[0]];
      }
    }
  }

  /** Every entry the pass reports is one of the entries it was given. */
  lemma RunReportsOnlyOrder(entries: set<Path>, order: seq<Path>, target: Path -> Path, rename: bool)
    ensures forall p :: p in Reported(Run(entries, order, target, rename).log) ==> p in order
  {
    RunReportsInOrder(entries, order, target, rename);
    var reported := Reported(Run(entries, order, target, rename).log);
    forall p | p in reported ensures p in order {
      var k :| 0 <= k < |reported| && reported[k] == p;
      assert order[k] == p;
    }
  }

  /** No entry comes after one of its ancestors, and none comes twice (the walk's order). */
  predicate TopDown(d: seq<Path>) {
    forall i, j :: 0 <= i < j < |d| ==> !IsPrefix(d[j], d[i])
  }

  /** No entry comes before one of its ancestors, and none comes twice. */
  predicate BottomUp(q: seq<Path>) {
    forall i, j :: 0 <= i < j < |q| ==> !IsPrefix(q[i], q[j])
  }

  /** Dropping the first entry of an ancestors-first list keeps it ancestors-first. */
  lemma TopDownTail(d: seq<Path>)
    requires d != [] && TopDown(d)
    ensures TopDown(d[1..])
  {
    var tail := d[1..];
    forall i, j | 0 <= i < j < |tail| ensures !IsPrefix(tail[j], tail[i]) {
      assert tail[j] == d[j + 1] && tail[i] == d[i + 1];
    }
  }

  /** No later entry of an ancestors-first list is an ancestor of (or equal to) the first. */
  lemma TopDownHead(d: seq<Path>)
    requires d != [] && TopDown(d)
    ensures forall q :: q in d[1..] ==> !IsPrefix(q, d[0])
  {
    forall q | q in d[1..] ensures !IsPrefix(q, d[0]) {
      var k :| 0 <= k < |d[1..]| && d[1..][k] == q;
      assert d[k + 1] == q;
    }
  }

  /** Putting an entry none of whose ancestors follow it in front keeps a list ancestors-first. */
  lemma TopDownCons(x: Path, rest: seq<Path>)
    requires TopDown(rest)
    requires forall q :: q in rest ==> !IsPrefix(q, x)
    ensures TopDown([x] + rest)
  {
    var r := [x] + rest;
    forall i, j | 0 <= i < j < |r| ensures !IsPrefix(r[j], r[i]) {
      assert r[j] == rest[j - 1];
      if i > 0 {
        assert r[i] == rest[i - 1];
      }
    }
  }

  /** Keeping only the invalid entries keeps the walk's ancestors-first order. */
  lemma {:induction false} PathsToRenameTopDown(d: seq<Path>)
    requires TopDown(d)
    ensures TopDown(PathsToRename(d))
  {
    if d != [] {
      TopDownTail(d);
      PathsToRenameTopDown(d[1..]);
      if HasInvalidName(BaseName(d[0])) {
        TopDownHead(d);
        TopDownCons(d[0], PathsToRename(d[1..]));
      }
    }
  }

  /** Walking a top-down list backwards visits every entry before its ancestors. */
  lemma ReverseBottomUp(d: seq<Path>)
    requires TopDown(d)
    ensures BottomUp(Reverse(d))
  {
    var q := Reverse(d);
    forall i, j | 0 <= i < j < |q| ensures !IsPrefix(q[i], q[j]) {
      assert q[i] == d[|d| - 1 - i] && q[j] == d[|d| - 1 - j];
    }
  }

  /** Renaming an existing entry within its own directory can fail only on a collision. */
  lemma InPlaceRenameFailsOnlyOnCollision(entries: set<Path>, path: Path, newPath: Path)
    requires WellFormed(entries) && path in entries && StaysInDirectory(path, newPath)
    ensures var r := TryRename(entries, path, newPath);
      r.Err? ==> r.error.TargetExists?
  {
    assert Exists(entries, Parent(path));
    if newPath != path && !Exists(entries, newPath) {
      assert newPath != Parent(path);
      assert Parent(newPath) == Parent(path);
      assert !IsPrefix(path, newPath);
    }
  }

  /**
   * When every entry of `order` exists, none comes before one of its
   * ancestors, and every target lies in its entry's directory, each entry
   * still exists when its turn comes: renaming an entry only moves its own
   * subtree. The only rename that can then fail is one whose target already
   * exists.
   */
  lemma {:induction false} RunFindsEverySource(entries: set<Path>, order: seq<Path>, target: Path -> Path, rename: bool)
    requires WellFormed(entries)
    requires forall p :: p in order ==> p in entries
    requires BottomUp(order)
    requires forall p :: p in order ==> StaysInDirectory(p, target(p))
    ensures var r := Run(entries, order, target, rename);
      r.error == None || r.error.value.TargetExists?
    decreases |order|
  {
    if order != [] {
      var path := order[0];
      var first := Step(entries, path, target, rename);
      var tail := order[1..];
      assert BottomUp(tail) by {
        forall i, j | 0 <= i < j < |tail| ensures !IsPrefix(tail[i], tail[j]) {
          assert tail[i] == order[i + 1] && tail[j] == order[j + 1];
        }
      }
      if rename && path != [] {
        var newPath := target(path);
        InPlaceRenameFailsOnlyOnCollision(entries, path, newPath);
        if TryRename(entries, path, newPath).Ok? {
          var after := TryRename(entries, path, newPath).value;
          assert first.entries == after && first.error == None;
          RenameKeepsWellFormed(entries, path, newPath);
          RenameEffect(entries, path, newPath);
          forall p | p in tail ensures p in after {
            var k :| 0 <= k < |tail| && tail[k] == p;
            assert order[k + 1] == p;
          }
          RunFindsEverySource(after, tail, target, rename);
        }
      } else {
        RunFindsEverySource(entries, tail, target, rename);
      }
    }
  }

  /**
   * The order in which the loop visits entries: only discovered entries with
   * an invalid name, every one of them existing, none before one of its
   * ancestors, each renamed within its own directory.
   */
  lemma VisitOrder(entries: set<Path>, discovered: seq<Path>, subString: string)
    requires forall p :: p in discovered ==> p in entries
    requires TopDown(discovered)
    ensures var order := Reverse(PathsToRename(discovered));
      && (forall p :: p in order ==> p in entries && p in discovered && HasInvalidName(BaseName(p)))
      && BottomUp(order)
      && (forall p :: p in order ==> StaysInDirectory(p, Target(subString)(p)))
  {
    var toRename := PathsToRename(discovered);
    PathsToRenameTopDown(discovered);
    ReverseBottomUp(toRename);
    ReverseMembers(toRename);
    TargetsStayInDirectory(Reverse(toRename), subString);
  }

  /** Reversal keeps the members. */
  lemma ReverseMembers<T>(xs: seq<T>)
    ensures forall x :: x in Reverse(xs) ==> x in xs
  {
    forall x | x in Reverse(xs) ensures x in xs {
      var k :| 0 <= k < |Reverse(xs)| && Reverse(xs)[k] == x;
      assert xs[|xs| - 1 - k] == x;
    }
  }

  /** Every entry with an invalid name is renamed within its own directory. */
  lemma TargetsStayInDirectory(order: seq<Path>, subString: string)
    requires forall p :: p in order ==> HasInvalidName(BaseName(p))
    ensures forall p :: p in order ==> StaysInDirectory(p, Target(subString)(p))
  {
    forall p | p in order ensures StaysInDirectory(p, Target(subString)(p)) {
      assert p != [] by {
        assert HasInvalidName(BaseName(p));
      }
      assert Target(subString)(p) == RenameTarget(p, subString);
    }
  }

  /**
   * The whole pass over a walk that lists every entry of the tree once, each
   * directory before its contents: it reports exactly the entries with an
   * invalid base name, last discovered first, and it can stop early only
   * because a curated name collides with an existing entry.
   */
  lemma ScanTheorem(entries: set<Path>, discovered: seq<Path>, subString: string, rename: bool)
    requires WellFormed(entries)
    requires forall p :: p in discovered ==> p in entries
    requires TopDown(discovered)
    ensures var r := Run(entries, Reverse(PathsToRename(discovered)), Target(subString), rename);
      && (r.error == None || r.error.value.TargetExists?)
      && (r.error == None ==> Reported(r.log) == Reverse(PathsToRename(discovered)))
      && (forall p :: p in Reported(r.log) ==> p in discovered && HasInvalidName(BaseName(p)))
  {
    var order := Reverse(PathsToRename(discovered));
    var target := Target(subString);
    VisitOrder(entries, discovered, subString);
    RunFindsEverySource(entries, order, target, rename);
    RunReportsInOrder(entries, order, target, rename);
    RunReportsOnlyOrder(entries, order, target, rename);
  }

  /** A tree whose names are all valid: nothing is reported and nothing is renamed. */
  lemma ScanAllValid(entries: set<Path>, discovered: seq<Path>, subString: string, rename: bool)
    requires forall p :: p in discovered ==> !HasInvalidName(BaseName(p))
    ensures Run(entries, Reverse(PathsToRename(discovered)), Target(subString), rename) == RunResult(entries, [], None)
  {
  }

  /** A pass that completes, or stops on an error, leaves a well-formed tree: no entry is orphaned. */
  lemma {:induction false} RunKeepsWellFormed(entries: set<Path>, order: seq<Path>, target: Path -> Path, rename: bool)
    requires WellFormed(entries)
    ensures WellFormed(Run(entries, order, target, rename).entries)
    decreases |order|
  {
    if order != [] {
      var path := order[0];
      if rename && path != [] && TryRename(entries, path, target(path)).Ok? {
        RenameKeepsWellFormed(entries, path, target(path));
      }
      RunKeepsWellFormed(Step(entries, path, target, rename).entries, order[1..], target, rename);
    }
  }

  /** "d " is invalid and curates to "d". */
  lemma TrailingSpaceCurated(d: string)
    requires d == "d "
    ensures HasInvalidName(d) && GetCuratedName(d, "_") == "d"
  {
    assert Strip(d) == "d" by {
      assert d == [] + "d" + " ";
      StripUnique([], "d", " ");
    }
    SubstituteKeepsValid("d", "_");
  }

  /** "f?" is invalid and curates to "f_". */
  lemma QuestionMarkCurated(f: string)
    requires f == "f?"
    ensures HasInvalidName(f) && GetCuratedName(f, "_") == "f_"
  {
    StripKeepsTrimmed(f);
    SubstituteOneChar(f, '_');
    assert IsInvalidChar(f[1]);
  }

  /** The nested example visits the file, then its directory. */
  lemma NestedOrder(d: string, f: string)
    requires d == "d " && f == "f?"
    ensures Reverse(PathsToRename([[d], [d, f]])) == [[d, f], [d]]
  {
    TrailingSpaceCurated(d);
    QuestionMarkCurated(f);
    assert [[d], [d, f]] == [[d]] + [[d, f]];
    PathsToRenameAppend([[d]], [[d, f]]);
    PathsToRenameSingle([d]);
    PathsToRenameSingle([d, f]);
    assert Reverse([[d], [d, f]]) == [[d, f], [d]];
  }

  /** A curated name that pathlib keeps as a segment of its own and the OS accepts as a new name. */
  predicate UsableName(name: string) {
    name != "" && name != "." && name != ".."
  }

  /** First turn of a nested pass: the file `d/f` is renamed to `d/f2` beside its directory. */
  lemma NestedFileStep(d: string, f: string, f2: string)
    requires GetCuratedName(f, "_") == f2 && UsableName(f2) && f2 != f
    ensures Step({[d], [d, f]}, [d, f], Target("_"), true)
         == RunResult({[d], [d, f2]}, [InvalidPath([d, f]), RenamedTo([d, f2])], None)
  {
    var file, dst := [d, f], [d, f2];
    var start: set<Path> := {[d], file};
    assert Target("_")(file) == dst;
    assert dst != file && dst != [d] && BaseName(dst) == f2 && Parent(dst) == [d];
    assert !IsPrefix(file, [d]) && !IsPrefix(file, dst);
    MovedLeaf([d], file, dst);
    assert TryRename(start, file, dst) == Ok({[d], dst});
  }

  /** Second turn of a nested pass: the directory `d` is renamed to `d2` and carries `f2` along. */
  lemma NestedDirStep(d: string, f2: string, d2: string)
    requires GetCuratedName(d, "_") == d2 && UsableName(d2) && d2 != d
    ensures Step({[d], [d, f2]}, [d], Target("_"), true)
         == RunResult({[d2], [d2, f2]}, [InvalidPath([d]), RenamedTo([d2])], None)
  {
    var dir, dst := [d], [d2];
    var start: set<Path> := {dir, [d, f2]};
    assert Target("_")(dir) == dst;
    assert dst != dir && BaseName(dst) == d2 && Parent(dst) == [];
    assert !Exists(start, dst) && !IsPrefix(dir, dst);
    assert dir + [f2] == [d, f2] && dst + [f2] == [d2, f2];
    MovedWithChild(dir, f2, dst);
    assert TryRename(start, dir, dst) == Ok({dst, [d2, f2]});
  }

  /**
   * The two turns over a file `d/f` and its directory `d`, file first, when
   * both curated names are usable and new: the file ends up under the renamed
   * directory, neither left behind nor duplicated.
   */
  lemma NestedRun(d: string, f: string, d2: string, f2: string)
    requires GetCuratedName(f, "_") == f2 && UsableName(f2) && f2 != f
    requires GetCuratedName(d, "_") == d2 && UsableName(d2) && d2 != d
    ensures Run({[d], [d, f]}, [[d, f], [d]], Target("_"), true)
         == RunResult({[d2], [d2, f2]}, [InvalidPath([d, f]), RenamedTo([d, f2]), InvalidPath([d]), RenamedTo([d2])], None)
  {
    var fileLog := [InvalidPath([d, f]), RenamedTo([d, f2])];
    var dirLog := [InvalidPath([d]), RenamedTo([d2])];
    NestedFileStep(d, f, f2);
    NestedDirStep(d, f2, d2);
    RunTwo({[d], [d, f]}, [[d, f], [d]], Target("_"), true, {[d], [d, f2]}, {[d2], [d2, f2]}, fileLog, dirLog);
    assert fileLog + dirLog == [InvalidPath([d, f]), RenamedTo([d, f2]), InvalidPath([d]), RenamedTo([d2])];
  }

  /**
   * An invalid file inside an invalid directory: the file is renamed first,
   * then the directory, and the file ends up under the renamed directory,
   * neither left behind nor duplicated.
   */
  lemma NestedRenameExample(d: string, f: string)
    requires d == "d " && f == "f?"
    ensures var r := Run({[d], [d, f]}, Reverse(PathsToRename([[d], [d, f]])), Target("_"), true);
      && r.error == None
      && r.entries == {["d"], ["d", "f_"]}
      && r.log == [InvalidPath([d, f]), RenamedTo([d, "f_"]), InvalidPath([d]), RenamedTo(["d"])]
  {
    NestedOrder(d, f);
    TrailingSpaceCurated(d);
    QuestionMarkCurated(f);
    assert "d" != d && "f_"[1] != f[1];
    NestedRun(d, f, "d", "f_");
  }

  /**
   * Every turn logs one or two lines: a pass logs at most two lines per
   * entry, a completed pass at least one per entry, and a pass over a
   * non-empty list at least one line.
   */
  lemma {:induction false} RunLogLength(entries: set<Path>, order: seq<Path>, target: Path -> Path, rename: bool)
    ensures var r := Run(entries, order, target, rename);
      && |r.log| <= 2 * |order|
      && (r.error.None? ==> |order| <= |r.log|)
      && (order != [] ==> |r.log| >= 1)
    decreases |order|
  {
    if order != [] {
      var first := Step(entries, order[0], target, rename);
      if first.error.None? {
        RunLogLength(first.entries, order[1..], target, rename);
      }
    }
  }

  /** A pass over two entries whose turns both succeed is the first turn followed by the second. */
  lemma RunTwo(entries: set<Path>, order: seq<Path>, target: Path -> Path, rename: bool,
               mid: set<Path>, final: set<Path>, firstLog: seq<Event>, secondLog: seq<Event>)
    requires |order| == 2
    requires Step(entries, order[0], target, rename) == RunResult(mid, firstLog, None)
    requires Step(mid, order[1], target, rename) == RunResult(final, secondLog, None)
    ensures Run(entries, order, target, rename) == RunResult(final, firstLog + secondLog, None)
  {
    assert order[1..][1..] == [];
    assert Run(mid, order[1..], target, rename) == RunResult(final, secondLog + [], None);
    assert secondLog + [] == secondLog;
  }

  /** A pass over one entry whose turn fails is that turn. */
  lemma RunOneFails(entries: set<Path>, p: Path, target: Path -> Path, rename: bool)
    requires Step(entries, p, target, rename).error.Some?
    ensures Run(entries, [p], target, rename) == Step(entries, p, target, rename)
  {
  }

  /**
   * An entry whose name curates to "." or ".." cannot be renamed: "." makes
   * the target its own directory, which exists, and ".." the directory above.
   */
  lemma DotsStepFails(entries: set<Path>, src: Path, dots: string)
    requires src in entries && src != []
    requires dots == "." || dots == ".."
    requires BaseName(src) != dots && GetCuratedName(BaseName(src), "_") == dots
    requires dots == "." ==> Exists(entries, Parent(src))
    ensures Step(entries, src, Target("_"), true)
         == RunResult(entries, [InvalidPath(src)], Some(TargetExists(RenameTarget(src, "_"))))
  {
    var dst := RenameTarget(src, "_");
    assert Target("_")(src) == dst;
    if dots == "." {
      assert dst == Parent(src) && dst != src;
    } else {
      assert BaseName(dst) == ".." && dst != src;
    }
    assert TryRename(entries, src, dst) == Err(TargetExists(dst));
  }

  /**
   * pathlib drops a "." segment, so a name that strips to "." targets its own
   * directory: renaming ". " in the base directory fails and ends the pass.
   */
  lemma DotNameRenameFails(name: string)
    requires name == ". "
    ensures Run({[name]}, [[name]], Target("_"), true)
         == RunResult({[name]}, [InvalidPath([name])], Some(TargetExists([])))
  {
    DotsCurated(name, ".");
    var entries: set<Path> := {[name]};
    assert BaseName([name]) == name && Parent([name]) == [];
    DotsStepFails(entries, [name], ".");
    assert RenameTarget([name], "_") == [];
    RunOneFails(entries, [name], Target("_"), true);
  }

  /**
   * A name that strips to ".." targets the directory above its own, which
   * exists: renaming "d/.. " fails and ends the pass.
   */
  lemma DotDotNameRenameFails(dir: string, name: string)
    requires dir == "d" && name == ".. "
    ensures Run({[dir], [dir, name]}, [[dir, name]], Target("_"), true)
         == RunResult({[dir], [dir, name]}, [InvalidPath([dir, name])], Some(TargetExists([dir, ".."])))
  {
    DotsCurated(name, "..");
    var entries: set<Path> := {[dir], [dir, name]};
    var src := [dir, name];
    assert BaseName(src) == name && Parent(src) == [dir] && name != "..";
    DotsStepFails(entries, src, "..");
    assert RenameTarget(src, "_") == [dir, ".."];
    RunOneFails(entries, src, Target("_"), true);
  }

  /** A run of periods followed by a space is invalid and curates to the periods. */
  lemma DotsCurated(name: string, dots: string)
    requires dots == "." || dots == ".."
    requires name == dots + " "
    ensures HasInvalidName(name) && GetCuratedName(name, "_") == dots
  {
    assert Strip(name) == dots by {
      assert name == [] + dots + " ";
      StripUnique([], dots, " ");
    }
    SubstituteKeepsValid(dots, "_");
  }
}
