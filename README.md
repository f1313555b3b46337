# NTFS name checker, modelled in Dafny

`checker.py` looks for files and directories whose names break the NTFS
naming rules. It can rename each of them to a "curated" name.

A base name is invalid when either:

- it holds a forbidden character: one of the 32 control characters 0-31, or
  one of `< > : " / \ | ? *`; or
- it ends in a space or a period.

To curate a name, the script strips the surrounding whitespace with Python's
`str.strip()`. It then replaces every forbidden character, one by one, with
the user's replacement string.

The main pass works like this:

- It walks the base directory recursively.
- It collects every entry with an invalid base name.
- It walks that list backwards. For each entry it logs the path and, when
  renaming is enabled, renames the entry in place to its curated name.
- A failed rename ends the run.

The model has four modules:

- `PyStrings` (`pystrings.dfy`): Python's `str.strip()`. It uses the full
  `str.isspace` set, which includes the separator controls 0x1C-0x1F and
  several Unicode spaces. `LeadingSpace`/`TrailingSpace` count the blanks at
  each end. `Strip` is the slice between them. The lemmas pin `Strip` down by
  uniqueness (`StripUnique`) and as a slice (`StripIsSlice`).
- `NtfsNames` (`names.dfy`): the forbidden-character class is `IsInvalidChar`.
  `contains_invalid_chars` is `ContainsInvalidChars` and `has_invalid_name` is
  `HasInvalidName`. Curation is `GetCuratedName`, with the regular
  expression's `sub` as `SubstituteInvalid`. Each function is tied to an
  independent definition:
  - an existential over positions;
  - the last character;
  - a count of forbidden characters;
  - a per-position map;
  - the deletion function `KeepValid`.
- `FileTree` (`filetree.dfy`): the directory tree below the base directory.
  - It is a set of paths relative to the base, each a sequence of name
    segments. `WellFormed` says every entry's directory exists.
  - `TryRename` is `Path.rename` as a function. On success the whole subtree
    moves. It fails if the source is missing, if the target exists, if the
    target's directory is missing, or if the target lies inside the source.
  - The class `FileSystem` holds the entries and updates them in place with
    its `Rename` method.
- `Scan` (`scan.dfy`): the `__main__` pass.
  - `PathsToRename` is the list comprehension and `Reverse` is `[::-1]`.
  - The `for` loop is the method `ProcessPaths`, with `ProcessPath` as its
    body, over a `FileSystem`. `ScanTree` is the whole pass.
  - The log lines become a returned sequence of `Event`s.
  - A rename failure, which Python raises as an exception, becomes a returned
    `RenameError` that stops the loop.
  - The methods are proved against the functions `Step` and `Run`. The
    properties of the pass are proved as lemmas about `Run`.

The walk itself (`Path(base_path).rglob("*")`) is a parameter, `discovered`:
the sequence of entries in the order the walk yields them. The theorems
take as given what the walk guarantees:

- every discovered path exists;
- no entry comes after one of its descendants;
- no entry comes twice.

The rename loop is proved for any target function that keeps an entry in its
directory. The script's own target, `Target(subString)`, is one such function
(`RenameTargetShape`). `ScanTree` passes that target.

A curated name is not always valid:

- `"a. "` curates to `"a."`, which still ends in a period.
- With the empty replacement, `"a <"` curates to `"a "`, which ends in a space.
- `CuratedNameInvalidIff` characterises exactly when curation leaves a name
  invalid. This holds for any replacement that is non-empty, has no forbidden
  character, and does not end in a space or a period. The curated name is then
  invalid exactly when the stripped name ends in a period.

The script prints no count of the invalid entries and no closing summary line.

Not every curated name can be used. pathlib drops a `"."` segment, so a name
such as `". "` that strips to `"."` is renamed to its own directory. The
rename then fails and ends the pass (`DotNameRenameFails`). A name that
strips to `".."` names the directory above, and that rename fails too
(`DotDotNameRenameFails`).

## Model

| member | source | states |
|---|---|---|
| `NtfsNames.IsInvalidChar` | checker.py:28-29 | every control character 0-31 is forbidden; every forbidden character is ASCII, and space and period are not forbidden (trailing ones are caught by the ending test instead); the nine printable characters `<`, `>`, `:`, `"`, `/`, `\`, `\|`, `?`, `*` are given by its definition, not by a contract |
| `NtfsNames.ContainsInvalidChars` | checker.py:28-35 | true exactly when some position of the name holds a control character 0-31 or one of the nine characters `<`, `>`, `:`, `"`, `/`, `\`, `\|`, `?`, `*` |
| `NtfsNames.EndsWith` | checker.py:39 | every string ends with the empty suffix; a suffix it ends with is no longer than it; it ends with a one-character suffix exactly when its last character is that character |
| `NtfsNames.EndsWithSuffix` | checker.py:39 | a string ends with each of its suffixes and with nothing longer than itself |
| `NtfsNames.HasInvalidName` | checker.py:38-40 | true exactly when the name is non-empty and ends in a space or a period, or some position holds a forbidden character; the empty name is valid |
| `NtfsNames.CleanNameInvalidIff` | checker.py:38-40 | for a name without forbidden characters, invalid exactly when its last character is a space or a period |
| `NtfsNames.CountInvalid` | checker.py:28-35 | the number of forbidden characters is at most the length, and zero exactly when the name contains none |
| `PyStrings.IsSpace` | checker.py:44 | space, tab, newline and carriage return are whitespace; below 0x80 only the space and control characters are, so the period never is; nothing above U+3000 is |
| `PyStrings.LeadingSpace` | checker.py:44 | the count of leading whitespace fits in the string and stops at a non-whitespace character |
| `PyStrings.TrailingSpace` | checker.py:44 | the count of trailing whitespace fits in the string and stops at a non-whitespace character |
| `PyStrings.LeadingSpaceIsBlank` | checker.py:44 | every character counted as leading whitespace satisfies `str.isspace` |
| `PyStrings.TrailingSpaceIsBlank` | checker.py:44 | every character counted as trailing whitespace satisfies `str.isspace` |
| `PyStrings.Strip` | checker.py:44 | `strip()` never lengthens a string, and a non-empty result neither starts nor ends with whitespace |
| `PyStrings.LeadingSpaceAppend` | checker.py:44 | a whitespace prefix adds exactly its length to the leading whitespace |
| `PyStrings.TrailingSpaceAppend` | checker.py:44 | a whitespace suffix adds exactly its length to the trailing whitespace |
| `PyStrings.StripUnique` | checker.py:44 | blank front + core with non-blank ends + blank back strips to exactly the core (strip's reference definition) |
| `PyStrings.StripKeepsTrimmed` | checker.py:44 | a string that neither starts nor ends with whitespace is left unchanged |
| `PyStrings.StripIdempotent` | checker.py:44 | stripping twice is stripping once |
| `PyStrings.StripKeepsSlice` | checker.py:44 | the result is the contiguous slice of the input that starts at its first non-whitespace character |
| `PyStrings.StripDropsTrailingBlanks` | checker.py:44 | everything removed after the kept slice is whitespace |
| `PyStrings.StripIsSlice` | checker.py:44 | strip removes only whitespace and only at the two ends: the kept part is a slice of the input, everything before and after it is whitespace |
| `PyStrings.StripEmpty` | checker.py:44 | a name strips to the empty string exactly when it is whitespace throughout |
| `NtfsNames.SubstituteInvalid` | checker.py:44 | a one-character replacement keeps the length and the empty replacement never lengthens; the partner lemmas below state the rest |
| `NtfsNames.SubstituteAppend` | checker.py:44 | substitution distributes over concatenation: each character is replaced on its own |
| `NtfsNames.SubstituteKeepsValid` | checker.py:44 | a name without forbidden characters is left exactly as it is |
| `NtfsNames.SubstituteLength` | checker.py:44 | the result is the input's length plus, for each of its forbidden characters, the replacement's length minus one: runs are not collapsed |
| `NtfsNames.SubstituteClean` | checker.py:44 | a replacement without forbidden characters leaves none in the result |
| `NtfsNames.SubstituteEmptyDeletes` | checker.py:44 | with the empty replacement, forbidden characters are deleted and the rest kept in order |
| `NtfsNames.SubstituteLast` | checker.py:44 | the result ends with the image of the input's last character |
| `NtfsNames.SubstituteLastChar` | checker.py:44 | with a non-empty replacement, the final character of the result is the replacement's last character if the input's last character is forbidden, and that character otherwise |
| `NtfsNames.SubstituteOneChar` | checker.py:44 | with a one-character replacement the length is kept and each position maps independently: forbidden characters to the replacement, others unchanged |
| `NtfsNames.SubstituteInvalidIff` | checker.py:39-44 | for an input that does not end in a space, and a non-empty, clean replacement not ending in space or period, the substituted name is invalid exactly when the input ends in a period |
| `NtfsNames.GetCuratedName` | checker.py:43-46 | with a replacement of at most one character the curated name is never longer than the original; its exact length, cleanliness and validity are the lemmas below |
| `NtfsNames.CuratedNameLength` | checker.py:43-46 | the curated name's length is that of the stripped name plus, for each forbidden character in it, the replacement's length minus one |
| `NtfsNames.CuratedNameHasNoInvalidChars` | checker.py:43-46 | a replacement without forbidden characters gives a curated name without forbidden characters |
| `NtfsNames.CuratedNameOnlyStrips` | checker.py:43-46 | a name whose stripped form has no forbidden characters curates to its stripped form, unaltered inside |
| `NtfsNames.CuratedNameInvalidIff` | checker.py:38-46 | for a usable replacement, the curated name is invalid exactly when the stripped name ends in a period |
| `NtfsNames.SubstituteExample` | checker.py:44 | `"file<name>.txt"` with `"_"` substitutes to `"file_name_.txt"` |
| `NtfsNames.CuratedNameExample` | checker.py:43-46 | `"file<name>.txt"` with `"_"` curates to `"file_name_.txt"` |
| `NtfsNames.CuratedNameMayEndInPeriod` | checker.py:38-46 | `"a. "` is invalid and curates to `"a."`, which is still invalid |
| `NtfsNames.SubstituteDeletesLast` | checker.py:44 | with the empty replacement `"a <"` substitutes to `"a "` |
| `NtfsNames.CuratedNameMayEndInSpace` | checker.py:38-46 | with the empty replacement `"a <"` curates to `"a "`, which is still invalid |
| `NtfsNames.CuratedNameStripsSeparators` | checker.py:43-46 | a leading 0x1F is whitespace to Python and is stripped, not substituted |
| `NtfsNames.SubstituteSeparator` | checker.py:44 | an interior 0x1F is replaced like any other control character |
| `NtfsNames.CuratedNameSubstitutesSeparators` | checker.py:43-46 | `"a\x1fb"` curates to `"a_b"` |
| `FileTree.Parent` | checker.py:70 | the parent of an entry below the base is the path without its last segment; that the base is its own parent is the model's convention, which the pass never uses |
| `FileTree.BaseName` | checker.py:63 | the parent followed by the base name gives back the path; the empty name for the base is the model's convention |
| `FileTree.Join` | checker.py:70 | for any name other than `""` and `"."`, `dir / name` has parent `dir` and base name `name`; pathlib drops `""` and `"."`, so `dir / ""` and `dir / "."` are `dir` |
| `FileTree.TryRename` | checker.py:71 | the rename succeeds exactly when the source exists and the target is the source itself, or is new, not `..`, in an existing directory and not inside the source; it then leaves the target existing (the move is stated by `RenameEffect`); `SourceMissing` means exactly that the source is gone, `TargetExists` exactly that a different target exists or ends in `..`, `TargetParentMissing` that its directory is missing, `TargetInsideSource` that it lies inside the source |
| `FileTree.MovedLeaf` | checker.py:71 | moving an entry with nothing under it keeps the entry beside it and puts the moved entry at the target |
| `FileTree.MovedWithChild` | checker.py:71 | moving a directory with one entry carries that entry along under the new name |
| `FileTree.AncestorsExist` | checker.py:71 | in a well-formed tree every ancestor of an entry exists |
| `FileTree.MovedOrigin` | checker.py:71 | after a move, an entry under the target comes from the source's subtree, every other entry was there before, and nothing is left under the source |
| `FileTree.RenameEffect` | checker.py:71 | a successful rename moves the whole subtree to the target, keeps every other entry, adds nothing else and leaves nothing under the source |
| `FileTree.RenameKeepsWellFormed` | checker.py:71 | a successful rename keeps every entry's directory in existence |
| `FileTree.FileSystem.constructor` | checker.py:71 | a filesystem over a well-formed set of entries |
| `FileTree.FileSystem.Rename` | checker.py:71 | on success the entries become the renamed tree and no error is returned; on failure the error is returned and nothing changes; the tree stays well formed |
| `Scan.PathsToRename` | checker.py:61-64 | keeps exactly the discovered entries whose base name is invalid, and nothing else |
| `Scan.PathsToRenameAppend` | checker.py:61-64 | the filter works entry by entry: filtering a concatenation concatenates the filtered parts, so discovery order and multiplicity are kept |
| `Scan.PathsToRenameSingle` | checker.py:61-64 | one discovered entry is kept, once, exactly when its base name is invalid |
| `Scan.Reverse` | checker.py:66 | same length, and position `i` holds the element `i` places from the end |
| `Scan.RenameTarget` | checker.py:70 | the target of an entry is its own directory or a sibling in that directory |
| `Scan.RenameTargetShape` | checker.py:70 | the target keeps the parent path and replaces only the last segment with the curated name; a curated name that is empty or `"."` gives the parent itself |
| `Scan.Run` | checker.py:66-72 | an error can only arise when renaming; the log, order and tree are stated by the lemmas below |
| `Scan.RunLogLength` | checker.py:66-72 | each turn logs one or two lines: a pass logs at most two lines per entry, a completed pass at least one per entry, and a non-empty pass at least one line |
| `Scan.Step` | checker.py:66-72 | one turn logs one or two lines, the path first; without renaming nothing else happens; when renaming, a failed rename gives its error, leaves the tree as it was and logs nothing more, and a successful one gives the renamed tree and logs `RenamedTo` with the target |
| `Scan.ProcessPath` | checker.py:67-72 | the loop body changes the filesystem and returns the events and error that `Step` gives for the old tree |
| `Scan.ProcessPaths` | checker.py:66-72 | the loop leaves the filesystem, log and error that `Run` gives for the old tree, changes nothing when not renaming, and keeps the tree well formed |
| `Scan.ScanTree` | checker.py:61-72 | the whole pass is `Run` over the reversed list of invalid discovered entries, with the curated-name target |
| `Scan.ReportedAppend` | checker.py:67 | the paths reported by two logs in sequence are those of the first followed by those of the second |
| `Scan.RunDryRun` | checker.py:66-69 | without renaming the pass leaves the tree unchanged, never fails and reports exactly the list, in order |
| `Scan.StepReports` | checker.py:67 | each turn reports exactly its own path once |
| `Scan.RunReportsInOrder` | checker.py:66-67 | the reported paths are a prefix of the visiting order: all of it when no rename fails, and at least one entry, in rename mode only, when one does |
| `Scan.RunStopsAtFailedRename` | checker.py:66-72 | a pass that stops on an error stops at the last entry it reported: renaming that entry to its target, in the tree the pass leaves, gives exactly that error |
| `Scan.RunReportsOnlyOrder` | checker.py:66-67 | every reported path is one of the paths visited |
| `Scan.TopDownTail` | checker.py:61-62 | dropping the first entry of an ancestors-first walk keeps it ancestors-first |
| `Scan.TopDownHead` | checker.py:61-62 | in an ancestors-first walk nothing after the first entry is an ancestor of it or equal to it |
| `Scan.TopDownCons` | checker.py:61-62 | an entry followed by none of its ancestors can be put in front of an ancestors-first list |
| `Scan.PathsToRenameTopDown` | checker.py:61-64 | filtering a walk with ancestors first keeps ancestors first |
| `Scan.ReverseBottomUp` | checker.py:66 | reversing an ancestors-first list puts every entry before its ancestors |
| `Scan.InPlaceRenameFailsOnlyOnCollision` | checker.py:70-71 | renaming an existing entry within its directory can fail only because the target exists |
| `Scan.RunFindsEverySource` | checker.py:66-71 | if descendants are visited before ancestors and every target stays in its directory, every entry still exists at its turn, so the only possible failure is a collision |
| `Scan.ReverseMembers` | checker.py:66 | `[::-1]` visits only entries of the list |
| `Scan.TargetsStayInDirectory` | checker.py:70 | every entry with an invalid name is renamed within its own directory |
| `Scan.VisitOrder` | checker.py:61-70 | the loop visits only existing, discovered, invalid entries, each before its ancestors and each renamed within its own directory |
| `Scan.ScanTheorem` | checker.py:61-72 | over a top-down walk, the pass reports exactly the invalid entries, last discovered first, and can stop early only on a name collision |
| `Scan.ScanAllValid` | checker.py:61-72 | a tree whose names are all valid produces no log and no change |
| `Scan.RunKeepsWellFormed` | checker.py:66-72 | whether the pass completes or stops on an error, every entry left in the tree lies in an existing directory: no entry is orphaned |
| `Scan.RunTwo` | checker.py:66-72 | a pass over two entries whose renames both succeed ends in the second turn's tree, with the first turn's log followed by the second's |
| `Scan.TrailingSpaceCurated` | checker.py:39-46 | `"d "` is invalid and curates to `"d"` |
| `Scan.QuestionMarkCurated` | checker.py:39-46 | `"f?"` is invalid and curates to `"f_"` |
| `Scan.NestedOrder` | checker.py:61-66 | for the walk `d `, `d /f?` the loop visits the file first and then its directory |
| `Scan.NestedFileStep` | checker.py:67-72 | for any file `d/f` whose curated name `f2` is new and usable, the turn renames it to `d/f2` beside its directory and logs both lines |
| `Scan.NestedDirStep` | checker.py:67-72 | for any directory `d` whose curated name `d2` is new and usable, the turn renames it to `d2` and carries its file along |
| `Scan.NestedRun` | checker.py:66-72 | a pass over `d/f` then `d`, both with new usable curated names, ends with exactly `{d2, d2/f2}`, no error, and the four log lines in order |
| `Scan.NestedRenameExample` | checker.py:61-72 | with renaming on, the tree `{d , d /f?}` becomes exactly `{d, d/f_}` with no error, and the log reports the file, its new path, the directory and its new path, in that order |
| `Scan.DotsCurated` | checker.py:39-46 | `". "` and `".. "` are invalid and curate to `"."` and `".."` |
| `Scan.RunOneFails` | checker.py:66-71 | a pass over one entry whose rename fails is that one turn |
| `Scan.DotsStepFails` | checker.py:70-71 | an entry whose name curates to `"."` or `".."` cannot be renamed: the turn logs it once and stops with `TargetExists`, the tree unchanged |
| `Scan.DotNameRenameFails` | checker.py:66-72 | renaming `". "` targets the base directory itself, so the pass stops with `TargetExists` after one report and leaves the tree unchanged |
| `Scan.DotDotNameRenameFails` | checker.py:66-72 | renaming `d/.. ` targets `d/..`, the directory above `d`, so the pass stops with `TargetExists` after one report and leaves the tree unchanged |

## Left out

- File names whose bytes are not valid UTF-8. Python decodes such bytes to
  lone surrogates U+DC80-U+DCFF, which a Dafny `char` cannot hold. Those
  characters are neither forbidden nor whitespace, so no result would change.
- Logging setup and the `-q/--quite` switch (checker.py:18-25, 58-59) are
  process-wide I/O configuration. The two log lines are modelled as `Event`
  values; timestamps and formatting are not.
- Argument parsing (checker.py:50-56) is command-line plumbing. The base
  path, `sub_string` and the rename flag become parameters.
- `Path(base_path).rglob("*")` becomes the given sequence `discovered`.
  Running the pass on a base path that does not exist is not modelled.
- `Path.rename` is modelled on an abstract tree. The model leaves out:
  - POSIX replacement of an existing target (the model reports a collision,
    as Windows does);
  - case-insensitive name matching;
  - the difference between files and directories;
  - permissions, and other refusals by the operating system, such as a
    curated name longer than the filesystem's limit on name length (a long
    `sub_string` can cause one): the script's rename then raises, while the
    model renames;
  - symbolic links;
  - concurrent changes by other processes.
- The regular-expression engine (`re.escape`, `re.compile`, `sub`) is
  replaced by the character predicate `IsInvalidChar` and the per-character
  substitution `SubstituteInvalid`.
- `SubstituteInvalid`: `sub_string` is copied literally. `re.sub` instead
  reads it as a template. A template escape such as `\n` is expanded. A group
  reference such as `\1` (the pattern has no groups), an unknown escape such
  as `\d`, or a trailing backslash makes `re.sub` raise `re.error`. That
  happens at the first curated name, after one log line, and ends the run.
- `SubstituteInvalid`: a `sub_string` holding `/` is treated as one name
  segment instead of making a deeper path.
- `FileTree.TryRename`: a target whose last segment is `..` is refused as
  `TargetExists`. The operating system refuses it with an `OSError` of its
  own (`EBUSY` on Linux).
- `ProcessPaths`: the loop is proved for any target function. Its link to the
  checker's own target is the equation in `ScanTree`'s contract together with
  `RenameTargetShape`.
- `Step`: the base directory itself (the empty path) is never renamed. The
  walk never yields it, and its empty name is valid in any case.
