# CopyRenameReplace (crr) in Dafny

`crr` copies a file or a whole directory tree. While it copies, it applies an
ordered list of literal substitutions ("replacee" → "replace_with") to every
relative path and to every file's text. The parts modelled here:

- **Name validator.** `CheckChars` and `CheckName` decide whether a name may
  be created.
- **Substitution map.** `MapType` keeps rules in first-registration order.
  `ReplaceStringByMap` applies them one after another, each as a left-to-right
  replace-all.
- **Building the map.** The pair loop of `main` screens each replacement and
  then registers its pair.
- **File transform.** `ReplaceFile` and `CopyRenameReplaceFile` read a
  file, apply the map to its text and write the result.
- **Directory mode.** `CopyRenameReplaceDir` runs a validation pass over the
  listing of the source tree, then an execution pass that creates directories
  and transforms files.
- **Dispatch.** `CopyRenameReplaceMain` and `CopyRenameReplace` check the
  roots, then choose file mode or directory mode.

The filesystem is a value, `FileSystem.Disk`. It maps each existing path
(without a trailing separator) to a file with its text or to a directory.
A path is looked up with one trailing separator dropped (`FileSystem.Norm`).
Three sets of paths say where reading, writing or creating a directory fails.
Every OS call that touches the filesystem is a function of this value: the
existence tests, `mdir_Create` and `mfile_GetContents`/`mfile_PutContents`.
The path helpers `mpath_AddSep` and `mpath_FindTitle` are pure string
functions (`FileSystem.AddSep`, `FileSystem.FindTitle`). Every operation
returns its exit code together with the new disk. Paths are compared exactly,
character for character.

Code that loops or updates state in the C++ is modelled as a method with the
same control flow:

- `CheckChars`, `CheckName` and `MapType.Slot` (`operator[]`);
- `ReplaceStringByMap` and `BuildMap` (the pair loop of `main`);
- the two passes of `CopyRenameReplaceDir`.

Each method is proved equal to a specification function:

- `CharsCode`, `NameCode`, `Find`/`Put`, `ApplyRules` and `Register`;
- `DirCopy` (built from `ValidatePass` and `ExecutePass`).

The straight-line code (`ReplaceFile`, `CopyRenameReplaceFile`,
`CopyRenameReplaceMain`, `CopyRenameReplace` and `main`, here `CommandLine`)
is modelled as functions. The lemmas then state what all of these promise.

Modules, one per file:

- `ExitCodes`: the exit-code enumeration.
- `NameCheck`: the name validator.
- `SubstitutionMap`: the rules, `ReplaceAll`, `MapType`, and the map built from the command line.
- `FileSystem`: the disk and path helpers.
- `FileTransform`: the file transform unit.
- `TreeCopy`: directory mode.
- `Dispatch`: the top-level checks and `main`.

Two behaviours of the top-level checks follow from the code and are proved as
such. The "destination contains source" test at crr.cpp:363 is a plain string
prefix test, with no separator appended in file mode, so copying `a.txt` to
`a.txt.bak` is refused (`Dispatch.ExtendedFileNameRejected`). A destination
whose full path starts with the source's full path plus a separator is
refused before anything is written (`Dispatch.TreeIntoItselfRejected`).

## Findings

| source | as written | input that shows it | evidently intended | confidence | as-written member | corrected member |
|---|---|---|---|---|---|---|
| crr.cpp:48-50 | the loop advances `pch` but every round looks up `*str`, so only the first character is tested | the name `ab/cd.txt` is accepted although it contains `/` | each round tests `*pch`, so a reserved character anywhere is refused, as the loop variable and the error message at crr.cpp:53-55 say | high, not executed | NameCheck.InnerSlashAccepted | NameCheck.CheckEveryChar |
| crr.cpp:266-271 | after `ReplaceFile` the code tests `ret`, still Success, instead of `ret2`; the error branch is never taken | a source tree whose only file `S\notes.txt` is unreadable: the copy reports Success | the branch at crr.cpp:267-271 prints NG, sets `ret = ret2` and breaks, so a failed transform stops the pass and is reported | high, not executed | TreeCopy.UnreadableFileIsNotReported | TreeCopy.AbortingExecutePassReportsUnreadable |
| crr.cpp:294-306 | a missing destination root is created before `CopyRenameReplaceDir` runs its validation pass | a source tree with an entry named `con` and a destination root that does not exist: InvalidName is reported and an empty destination root is left behind | `CopyRenameReplaceDir` validates every name before its first write (crr.cpp:218-239), so a refused name should leave the disk unchanged | medium, not executed | Dispatch.InvalidNestedNameLeavesDestinationRoot | Dispatch.ValidatingMainLeavesDiskOnInvalidName |
| crr.cpp:327, 347-368 | "source and destination are same" is judged on the raw arguments, and on full paths only through the prefix test after the destination's title was renamed | `a.txt` and `./a.txt` in `C:\w` with the rule `a`→`b`: the file is copied to `b.txt` beside itself | two arguments naming the same path are refused, as the message at crr.cpp:329 says | low, not executed | Dispatch.RenamedTitleCopiesBesideItself | Dispatch.StrictRefusesSamePath |

The model's `main` (`Dispatch.CommandLine`) keeps the code as written; the
corrected definitions are `NameCheck.CheckEveryChar`,
`TreeCopy.AbortingExecutePass`, `Dispatch.ValidatingMain` and
`Dispatch.StrictCopyRenameReplace`, each proved to agree with the code where
the defect does not show (`NameCheck.CheckEveryChar` itself, for strings whose
characters after the first are allowed; `TreeCopy.ExecutePassAgreesUntilTransformFails`,
`Dispatch.ValidatingMainAgreesOnValidNames`, `Dispatch.StrictRefusesSamePath`).

## Model

| member | source | states |
|---|---|---|
| ExitCodes.Value | crr.cpp:7-20 | each exit code's numeric value lies in 0..10, and is 0 exactly for Success |
| ExitCodes.ValueInjective | crr.cpp:7-20 | distinct exit codes have distinct numeric values |
| NameCheck.CheckChars | crr.cpp:46-60 | the verdict is InvalidChar exactly when the first character is one of the fourteen reserved characters (`NameCheck.InvalidChars`), and Success otherwise; an InvalidChar verdict means the string does contain a reserved character |
| NameCheck.CheckCharsMissesLaterChars | crr.cpp:48-50 | a string whose first character is allowed passes, whatever characters follow |
| NameCheck.InnerSlashAccepted | crr.cpp:48-50 | `ab/cd.txt` contains a reserved character and is still accepted as a name |
| NameCheck.CheckEveryChar | crr.cpp:46-60 | the corrected scan: InvalidChar exactly when some character of the string is reserved, Success otherwise; it agrees with `CheckChars` whenever every character after the first is allowed |
| NameCheck.CheckName | crr.cpp:62-105 | the verdict is the name-code function: empty or `$`-terminated names are refused, then the 27 reserved device names ignoring case, then `CheckChars` decides |
| NameCheck.NameCodeOutcomes | crr.cpp:62-105 | the verdict is Success, InvalidName or InvalidChar; InvalidName exactly when the name is empty, ends with `$` or is a reserved name; otherwise it is the `CheckChars` verdict |
| NameCheck.ClockEntryUnreachable | crr.cpp:68-76 | no name that survives the `$` test can equal the table's `CLOCK$` entry |
| NameCheck.LongNamesAreNotReserved | crr.cpp:73-81 | a name longer than six characters is never a reserved name |
| NameCheck.RefusedNameExamples | crr.cpp:62-105 | "", "con", "COM1" and "a$" are refused with InvalidName |
| NameCheck.AcceptedNameExamples | crr.cpp:62-105 | "good_name" and "a-b_c.d" are accepted |
| SubstitutionMap.ReplaceAllAbsent | crr.cpp:156 | under the assumed meaning of `mstr_replace_all`, replace-all leaves a string without an occurrence of the pattern unchanged |
| SubstitutionMap.ReplaceAllByItself | crr.cpp:156 | under the assumed meaning of `mstr_replace_all`, replacing a pattern by itself changes nothing |
| SubstitutionMap.ReplacementNotRescanned | crr.cpp:156 | under the assumed meaning of `mstr_replace_all`, inserted text is not scanned again: "aXa" with `a`→`aa` gives "aaXaa" |
| SubstitutionMap.ApplyRulesAppend | crr.cpp:150-158 | applying two rule lists in a row is applying their concatenation |
| SubstitutionMap.ApplyTwoRules | crr.cpp:150-158 | two rules apply in map order, the second to the output of the first |
| SubstitutionMap.IdentityRules | crr.cpp:150-158 | rules that replace each key by itself leave every string unchanged; the empty map is one such list |
| SubstitutionMap.Find | crr.cpp:128-132 | the linear scan stops at the first entry with the key, and reports the map's size when no entry has it |
| SubstitutionMap.FindIsFirstMatch | crr.cpp:128-132 | any index with the key and no earlier entry holding it is the index the scan finds |
| SubstitutionMap.Put | crr.cpp:126-137 | assigning through `operator[]` overwrites an existing key's value in place, or appends a new entry at the end; every other entry is unchanged |
| SubstitutionMap.PutKeepsKeys | crr.cpp:126-137 | keys stay unique and keep their first-registration order |
| SubstitutionMap.MapType.constructor | crr.cpp:114-116 | a new map is empty |
| SubstitutionMap.MapType.Slot | crr.cpp:126-137 | `operator[]` returns the index of the key's entry, appending an entry with an empty value when the key is new, and keeps keys unique |
| SubstitutionMap.MapType.Assign | crr.cpp:405 | the assignment through the returned slot changes that entry's value only |
| SubstitutionMap.ReplaceStringByMap | crr.cpp:150-158 | the result is every rule applied in map order, each as a left-to-right replace-all |
| SubstitutionMap.RegisterRefuses | crr.cpp:396-403 | building the map ends in Success or InvalidChar, and in InvalidChar exactly when some pair's replacement fails `CheckChars` |
| SubstitutionMap.RegisterScreens | crr.cpp:396-406 | every registered replacement passed `CheckChars`, and keys are unique |
| SubstitutionMap.RegisterKeepsKeysNonEmpty | crr.cpp:396-406 | with non-empty patterns on the command line every registered key is non-empty |
| SubstitutionMap.BuildMap | crr.cpp:394-408 | the loop registers the pairs from argument 3 on, in order, and stops at the first refused replacement with its code; the map is valid |
| FileTransform.ReplaceFile | crr.cpp:160-195 | CantRead exactly when the source cannot be read, CantWrite exactly when it can be read but the destination is a directory or refuses writing; on failure the disk is unchanged; on success only the destination changes, and it holds the transformed text |
| FileTransform.CopyRenameReplaceFile | crr.cpp:197-206 | the code is Success, CantRead or CantWrite; on failure the disk is unchanged; on success the new disk is exactly the old one with the destination set to a file holding the source text with the rules applied (a verbatim copy when there are no rules); the failure sets never change and no other path appears or changes |
| TreeCopy.CopyRenameReplaceDir | crr.cpp:208-281 | both passes together give the directory-copy function: validation of every renamed name first, and the execution pass only when all names pass |
| TreeCopy.ValidatePassAcceptsValidNames | crr.cpp:218-236 | the validation pass succeeds exactly when every entry under the source root gets a valid new name, and otherwise refuses with InvalidName or InvalidChar |
| TreeCopy.ValidatePassReportsFirstInvalid | crr.cpp:218-236 | a refusal carries the verdict on the first entry whose new name is invalid |
| TreeCopy.DirCopyValidatesFirst | crr.cpp:218-239 | if one name is refused nothing is written, and if the disk changed every name was valid |
| TreeCopy.ExecutePassCodes | crr.cpp:239-280 | the execution pass reports only Success or CantCreateDir |
| TreeCopy.ExecutePassAppend | crr.cpp:239-275 | the pass over a listing split in two runs the second part on the disk the first part leaves, unless the first part ended with CantCreateDir, which stops the pass with that result and nothing after it done |
| TreeCopy.StepDiskFrame | crr.cpp:254-266 | one entry's step changes the disk at most at that entry's destination, and keeps every directory |
| TreeCopy.ExecutePassFrame | crr.cpp:239-275 | the execution pass keeps the failure sets, every existing path, and every directory, and changes only paths that are some entry's destination |
| TreeCopy.ExecutePassTransformsFiles | crr.cpp:239-275 | after a successful pass a readable file entry that is no entry's destination, whose destination is not a directory, is writable and is shared with no other entry, has its destination holding its text with the rules applied |
| TreeCopy.ExecutePassCreatesDirectories | crr.cpp:254-263 | after a successful pass every source directory has a directory at its destination |
| TreeCopy.CantCreateDirCause | crr.cpp:256-261 | CantCreateDir names an entry whose destination was not a directory beforehand, and that entry was a directory before the pass or is itself some entry's destination |
| TreeCopy.RerunSucceeds | crr.cpp:256-257 | when every source directory's destination already is a directory and no entry's destination coincides with a source entry, the execution pass cannot fail |
| TreeCopy.ExecutePassAgreesUntilTransformFails | crr.cpp:264-272 | the pass as written equals the stop-at-first-failure pass of the error branch at crr.cpp:267-271 whenever that pass reports no file failure |
| TreeCopy.UnreadableFileIsNotReported | crr.cpp:266-271 | a tree whose only file is unreadable: directory mode as written reports Success with the disk unchanged, and the stop-at-first-failure pass reports CantRead |
| TreeCopy.AbortingExecutePassReportsUnreadable | crr.cpp:264-271 | the stop-at-first-failure pass never reports Success over a tree holding an unreadable file that no entry's destination overwrites |
| Dispatch.MainCodes | crr.cpp:283-323 | directory mode never reports CantRead, CantWrite, NoSource or NotFile, and file mode never reports CantCreateDir, NotDir or a name code |
| Dispatch.MainRefusalsLeaveDiskUnchanged | crr.cpp:283-323 | InvalidDest, NoSource, NotDir, NotFile, CantRead and CantWrite leave the disk as it was |
| Dispatch.InvalidNestedNameLeavesDestinationRoot | crr.cpp:294-306 | with a refused name in the tree the outcome is a name code or a root failure, and the only change left is a newly created, empty destination root |
| Dispatch.ValidatingMainLeavesDiskOnInvalidName | crr.cpp:294-306 | with validation moved before the root is created, a refused name in the tree is reported as InvalidDest, NotDir or a name code and leaves the disk exactly as it was |
| Dispatch.ValidatingMainAgreesOnValidNames | crr.cpp:283-323 | moving validation first changes no outcome when every name in the tree is accepted, nor in file mode |
| Dispatch.MainChangesOnlyAfterChecks | crr.cpp:283-323 | the disk changes only when the roots differ; in directory mode the destination was not a file and is a directory afterwards, with code Success, CantCreateDir or a name code; in file mode the copy succeeded and the destination was not a directory |
| Dispatch.DirModeCreatesTree | crr.cpp:291-307 | after a successful directory copy the destination root and the destination of every source directory are directories, and every name was valid |
| Dispatch.Roots | crr.cpp:343-359 | the roots name the full source path and the full destination path with its last component renamed; both end with a separator in directory mode, and directory existence is unchanged by that |
| Dispatch.CopyRenameReplaceChecksFirst | crr.cpp:325-370 | InvalidDest, TooLongPath, NoSource, NotDir, NotFile, CantRead and CantWrite leave the disk unchanged; and if the disk changed, the arguments differ and fit `MAX_PATH`, the renamed title passed `CheckName`, the destination root does not start with the source root, and in directory mode the destination root is a directory afterwards |
| Dispatch.TreeIntoItselfRejected | crr.cpp:363-368 | a destination whose full path starts with the source's full path plus a separator is refused, with the disk unchanged |
| Dispatch.EqualFullPathsRejected | crr.cpp:347-368 | equal full paths are refused when the rules leave the last component alone, with the disk unchanged |
| Dispatch.RenamedTitleCopiesBesideItself | crr.cpp:325-370 | the same full path with the rule `a`→`b` copies `a.txt` to `b.txt` |
| Dispatch.StrictRefusesSamePath | crr.cpp:325-331 | with the refusal of two arguments resolving to the same path, such arguments get InvalidDest or TooLongPath with the disk unchanged, and distinct full paths get the outcome of `CopyRenameReplace` |
| Dispatch.StrictRefusesRenamedTitle | crr.cpp:325-331 | the strict variant refuses `a.txt` against `./a.txt` with the rule `a`→`b` |
| Dispatch.ExtendedFileNameRejected | crr.cpp:363-368 | in file mode `a.txt` cannot be copied to `a.txt.bak` |
| Dispatch.CommandLineScreensReplacements | crr.cpp:394-410 | a refused replacement anywhere on the command line ends `main` with InvalidChar and an unchanged disk, exactly when one exists; otherwise the outcome is the copy with the registered map |

## Left out

- Console output (`stderr_wsprintf`, `show_help`, the OK/NG lines): it is a side channel and not part of any result.
- Character encoding and line endings (`mstr_from_bin`, `mbin_from_str`, the ANSI/Unicode build split): a file's content is its decoded text. Decoding and re-encoding are taken to be exact inverses.
- Directory enumeration (`mdir_GetFullPathList`): the listing is a parameter `paths` of directory mode. Its order and completeness are whatever the enumeration yields.
- Full-path resolution (`mpath_GetFullPath`) is a function parameter `fullPath`. The current directory (`mdir_Get`) is a parameter `curDir`. Saving and restoring the current directory (`mdir_Set`) is not modelled, because nothing in the model changes it.
- `CommandLineToArgvW` and the process's argument vector: `main`'s arguments are a sequence of strings.
- Fixed-size C buffers: paths are unbounded strings apart from the explicit `MAX_PATH` test. The `lstrcpy` of a renamed title that outgrows its buffer is not modelled. Iterating an empty map through `&m_entries[0]` is taken to visit no entry.
- `lstrcmpi` is modelled as ASCII case folding. Every name it compares against is ASCII.
- Letter case: the model's disk looks paths up exactly, character for character, while the Windows calls `mdir_Exists`, `mpath_Exists` and `mdir_Create` ignore case and the containment test at crr.cpp:363-364 does not. The model therefore cannot show a source and destination that differ only in case, such as `C:\Src` copied to `C:\src\sub`, which passes that test and copies the tree into itself.
- FileSystem.Norm: a path ending in a separator is looked up without it, for plain files as well as directories. On Windows `F\` does not name the plain file `F`, so the model lets a separator-terminated path name a file where the system would not. In `Dispatch.CopyRenameReplaceMain` this makes the NotDir branch at crr.cpp:302-306 reachable for a directory source whose destination root (a separator appended at crr.cpp:358) names a plain file; by Windows path handling `mpath_Exists` would be false there, `mdir_Create` at crr.cpp:296 would fail, and the result would be CantCreateDir. The MFileAPI helpers are not part of this model.
- SubstitutionMap.ReplaceAll: the body of `mstr_replace_all` is not part of this model. It is taken to replace left to right, without overlaps, and without scanning inserted text again.
- `mpath_FindTitle` is taken to return the text after the last `\` or `/`. `mdir_Create` is taken to fail only where the path exists or creation is refused. `mfile_PutContents` is taken to fail only on a directory or where writing is refused. These helpers are not part of this model.
- The C++ reads and writes whole files. Concurrent changes to the tree between the two passes are not modelled.
- SubstitutionMap.ReplaceStringByMap: requires every key to be non-empty. The C++ does not check this, and `mstr_replace_all` with an empty pattern is not part of this model.
- TreeCopy.CopyRenameReplaceDir: requires non-empty keys, for the same reason.
- Dispatch.CopyRenameReplaceMain: requires non-empty keys, for the same reason; so do `Dispatch.ValidatingMain` and the lemmas about both.
- Dispatch.CopyRenameReplace: requires non-empty keys, for the same reason; so do `Dispatch.StrictCopyRenameReplace` and the lemmas about both.
- Dispatch.CommandLine: requires a non-empty pattern in every pair, for the same reason. An empty pattern on the command line is not modelled.
