/** The orchestrator: the checks `CopyRenameReplace` and
    `CopyRenameReplaceMain` make on the two roots before they dispatch to file
    mode or directory mode, and the `main` entry point that builds the map
    from the command line. */
module Dispatch {
  import opened ExitCodes
  import opened NameCheck
  import opened SubstitutionMap
  import opened FileSystem
  import opened FileTransform
  import opened TreeCopy

  /** The Windows `MAX_PATH`. */
  const MaxPath := 260

  /** `CopyRenameReplaceMain` over two resolved roots: equal roots are
      refused; a directory source needs a directory destination, created when
      absent; a file source must exist and needs a destination that is not a
      directory. */
  function CopyRenameReplaceMain(path0: Path, path1: Path, rules: seq<MapEntry>, paths: seq<Path>, d: Disk): (ExitCode, Disk)
    requires NonEmptyKeys(rules)
  {
    if path0 == path1 then (InvalidDest, d)
    else if DirExists(d, path0) then
      if !PathExists(d, path1) then
        var created := CreateDir(d, path1);
        if !created.0 then (CantCreateDir, d)
        else DirCopy(path0, path1, rules, paths, created.1)
      else if FileExists(d, path1) then (NotDir, d)
      else DirCopy(path0, path1, rules, paths, d)
    else if !PathExists(d, path0) then (NoSource, d)
    else if DirExists(d, path1) then (NotFile, d)
    else CopyRenameReplaceFile(path0, path1, rules, d)
  }

  /** Directory mode never reports a file read or write failure, and file
      mode never reports a directory or name failure. */
  lemma MainCodes(path0: Path, path1: Path, rules: seq<MapEntry>, paths: seq<Path>, d: Disk)
    requires NonEmptyKeys(rules)
    ensures DirExists(d, path0) ==>
              CopyRenameReplaceMain(path0, path1, rules, paths, d).0 in
                {Success, InvalidDest, CantCreateDir, NotDir, InvalidName, InvalidChar}
    ensures !DirExists(d, path0) ==>
              CopyRenameReplaceMain(path0, path1, rules, paths, d).0 in
                {Success, InvalidDest, NoSource, NotFile, CantRead, CantWrite}
  {
    ValidatePassAcceptsValidNames(path0, rules, paths);
    ExecutePassCodes(path0, path1, rules, paths, d);
    ExecutePassCodes(path0, path1, rules, paths, CreateDir(d, path1).1);
  }

  /** Every refusal on the roots, and every failure of file mode, leaves the
      disk as it was. */
  lemma MainRefusalsLeaveDiskUnchanged(path0: Path, path1: Path, rules: seq<MapEntry>, paths: seq<Path>, d: Disk)
    requires NonEmptyKeys(rules)
    requires CopyRenameReplaceMain(path0, path1, rules, paths, d).0 in {InvalidDest, NoSource, NotDir, NotFile, CantRead, CantWrite}
    ensures CopyRenameReplaceMain(path0, path1, rules, paths, d).1 == d
  {
    ValidatePassAcceptsValidNames(path0, rules, paths);
    ExecutePassCodes(path0, path1, rules, paths, d);
    ExecutePassCodes(path0, path1, rules, paths, CreateDir(d, path1).1);
    assert DirCopy(path0, path1, rules, paths, d).0 in {Success, CantCreateDir, InvalidName, InvalidChar};
    assert DirCopy(path0, path1, rules, paths, CreateDir(d, path1).1).0 in {Success, CantCreateDir, InvalidName, InvalidChar};
  }

  /** A refused name anywhere in the source tree stops directory mode before
      any entry is copied, but only after the destination root was created
      when it did not exist: the root is the one change left behind. */
  lemma InvalidNestedNameLeavesDestinationRoot(path0: Path, path1: Path, rules: seq<MapEntry>, paths: seq<Path>, d: Disk)
    requires NonEmptyKeys(rules)
    requires path0 != path1 && DirExists(d, path0)
    requires !AllNamesValid(path0, rules, paths)
    ensures CopyRenameReplaceMain(path0, path1, rules, paths, d).0 in {InvalidName, InvalidChar, CantCreateDir, NotDir}
    ensures var r := CopyRenameReplaceMain(path0, path1, rules, paths, d);
      r.1 == d || (!PathExists(d, path1) && r.0 in {InvalidName, InvalidChar} &&
                   r.1 == d.(nodes := d.nodes[Norm(path1) := Dir]))
    ensures !PathExists(d, path1) && Norm(path1) !in d.uncreatable ==>
              CopyRenameReplaceMain(path0, path1, rules, paths, d).1 == d.(nodes := d.nodes[Norm(path1) := Dir])
  {
    DirCopyValidatesFirst(path0, path1, rules, paths, d);
    DirCopyValidatesFirst(path0, path1, rules, paths, CreateDir(d, path1).1);
  }

  /** Directory mode with the first pass moved ahead of the root's creation,
      as the two-pass structure of `CopyRenameReplaceDir` means it: a refused
      name anywhere in the tree is reported before anything is written. */
  function ValidatingMain(path0: Path, path1: Path, rules: seq<MapEntry>, paths: seq<Path>, d: Disk): (ExitCode, Disk)
    requires NonEmptyKeys(rules)
  {
    if path0 != path1 && DirExists(d, path0) && !FileExists(d, path1) &&
       ValidatePass(path0, rules, paths) != Success
    then (ValidatePass(path0, rules, paths), d)
    else CopyRenameReplaceMain(path0, path1, rules, paths, d)
  }

  /** With validation first, a refused name in the source tree leaves the
      disk exactly as it was, the destination root included. */
  lemma ValidatingMainLeavesDiskOnInvalidName(path0: Path, path1: Path, rules: seq<MapEntry>, paths: seq<Path>, d: Disk)
    requires NonEmptyKeys(rules)
    requires DirExists(d, path0)
    requires !AllNamesValid(path0, rules, paths)
    ensures ValidatingMain(path0, path1, rules, paths, d).0 in {InvalidDest, NotDir, InvalidName, InvalidChar}
    ensures ValidatingMain(path0, path1, rules, paths, d).1 == d
  {
    ValidatePassAcceptsValidNames(path0, rules, paths);
  }

  /** Moving validation first changes nothing when every name is accepted,
      nor in file mode. */
  lemma ValidatingMainAgreesOnValidNames(path0: Path, path1: Path, rules: seq<MapEntry>, paths: seq<Path>, d: Disk)
    requires NonEmptyKeys(rules)
    requires AllNamesValid(path0, rules, paths) || !DirExists(d, path0)
    ensures ValidatingMain(path0, path1, rules, paths, d) == CopyRenameReplaceMain(path0, path1, rules, paths, d)
  {
    ValidatePassAcceptsValidNames(path0, rules, paths);
  }

  /** On success in directory mode the destination root is a directory, and
      so is the destination of every directory of the source tree. */
  lemma DirModeCreatesTree(path0: Path, path1: Path, rules: seq<MapEntry>, paths: seq<Path>, d: Disk)
    requires NonEmptyKeys(rules)
    requires DirExists(d, path0)
    requires CopyRenameReplaceMain(path0, path1, rules, paths, d).0 == Success
    ensures DirExists(CopyRenameReplaceMain(path0, path1, rules, paths, d).1, path1)
    ensures forall k :: 0 <= k < |paths| && path0 <= paths[k] && DirExists(d, paths[k]) ==>
              DirExists(CopyRenameReplaceMain(path0, path1, rules, paths, d).1, Dest(path0, path1, rules, paths[k]))
    ensures AllNamesValid(path0, rules, paths)
  {
    var start := if PathExists(d, path1) then d else CreateDir(d, path1).1;
    assert CopyRenameReplaceMain(path0, path1, rules, paths, d) == DirCopy(path0, path1, rules, paths, start);
    ValidatePassAcceptsValidNames(path0, rules, paths);
    assert DirExists(start, path1);
    ExecutePassFrame(path0, path1, rules, paths, start);
    ExecutePassCreatesDirectories(path0, path1, rules, paths, start);
    forall k | 0 <= k < |paths| && path0 <= paths[k] && DirExists(d, paths[k])
      ensures DirExists(start, paths[k])
    {
      DirsPersist(d, path1, paths[k], "");
    }
  }

  /** The roots `CopyRenameReplace` hands on: the full source path, and the
      full destination path with its last component renamed by the rules;
      both end with a separator when the source is a directory. */
  function Roots(item0: Path, item1: Path, fullPath: Path -> Path, rules: seq<MapEntry>, d: Disk): (r: (Path, Path))
    requires NonEmptyKeys(rules)
    ensures Norm(r.0) == Norm(fullPath(item0))
    ensures Norm(r.1) == Norm(DirPart(fullPath(item1)) + ApplyRules(rules, FindTitle(fullPath(item1))))
    ensures DirExists(d, r.0) <==> DirExists(d, fullPath(item0))
    ensures DirExists(d, r.0) ==> EndsWithSep(r.0) && EndsWithSep(r.1)
  {
    var full0 := fullPath(item0);
    var full1 := fullPath(item1);
    var dest := DirPart(full1) + ApplyRules(rules, FindTitle(full1));
    if DirExists(d, full0) then (AddSep(full0), AddSep(dest)) else (full0, dest)
  }

  /** `CopyRenameReplace`: refuse equal arguments and over-long paths,
      validate the destination's renamed last component, refuse a destination
      that starts with the source, and hand the roots on. `curDir` is the
      current directory and `fullPath` the resolution of a command-line path
      against it. */
  function CopyRenameReplace(item0: Path, item1: Path, curDir: Path, fullPath: Path -> Path,
                   rules: seq<MapEntry>, paths: seq<Path>, d: Disk): (ExitCode, Disk)
    requires NonEmptyKeys(rules)
  {
    if item0 == item1 then (InvalidDest, d)
    else if |curDir| + 1 >= MaxPath || |item0| >= MaxPath || |item1| >= MaxPath then (TooLongPath, d)
    else
      var title := ApplyRules(rules, FindTitle(fullPath(item1)));
      if NameCode(title) != Success then (NameCode(title), d)
      else
        var roots := Roots(item0, item1, fullPath, rules, d);
        if roots.0 <= roots.1 then (InvalidDest, d)
        else CopyRenameReplaceMain(roots.0, roots.1, rules, paths, d)
  }

  /** `CopyRenameReplaceMain` changes the disk only once the roots differ and
      the destination has the kind the source needs; in directory mode the
      destination root is then a directory, and in file mode the copy
      succeeded. A root that cannot be created leaves the disk alone. */
  lemma MainChangesOnlyAfterChecks(path0: Path, path1: Path, rules: seq<MapEntry>, paths: seq<Path>, d: Disk)
    requires NonEmptyKeys(rules)
    ensures var r := CopyRenameReplaceMain(path0, path1, rules, paths, d);
      r.1 != d ==> path0 != path1
    ensures var r := CopyRenameReplaceMain(path0, path1, rules, paths, d);
      r.1 != d && DirExists(d, path0) ==>
        !FileExists(d, path1) && DirExists(r.1, path1) && r.0 in {Success, CantCreateDir, InvalidName, InvalidChar}
    ensures var r := CopyRenameReplaceMain(path0, path1, rules, paths, d);
      r.1 != d && !DirExists(d, path0) ==> r.0 == Success && !DirExists(d, path1)
  {
    if path0 != path1 && DirExists(d, path0) && !FileExists(d, path1) {
      var start := if PathExists(d, path1) then d else CreateDir(d, path1).1;
      if PathExists(d, path1) || CreateDir(d, path1).0 {
        assert DirExists(start, path1);
        assert CopyRenameReplaceMain(path0, path1, rules, paths, d) == DirCopy(path0, path1, rules, paths, start);
        ValidatePassAcceptsValidNames(path0, rules, paths);
        ExecutePassCodes(path0, path1, rules, paths, start);
        ExecutePassFrame(path0, path1, rules, paths, start);
      }
    }
  }

  /** The disk changes only after every check of `CopyRenameReplace` has
      passed: equal arguments, over-long paths, a refused renamed title and a
      destination that starts with the source all leave it as it was, and so
      do the refusals of `CopyRenameReplaceMain`. */
  lemma CopyRenameReplaceChecksFirst(item0: Path, item1: Path, curDir: Path, fullPath: Path -> Path,
                                     rules: seq<MapEntry>, paths: seq<Path>, d: Disk)
    requires NonEmptyKeys(rules)
    ensures var r := CopyRenameReplace(item0, item1, curDir, fullPath, rules, paths, d);
      r.0 in {InvalidDest, TooLongPath, NoSource, NotDir, NotFile, CantRead, CantWrite} ==> r.1 == d
    ensures var r := CopyRenameReplace(item0, item1, curDir, fullPath, rules, paths, d);
      var roots := Roots(item0, item1, fullPath, rules, d);
      r.1 != d ==>
        item0 != item1 && |curDir| + 1 < MaxPath && |item0| < MaxPath && |item1| < MaxPath &&
        NameCode(ApplyRules(rules, FindTitle(fullPath(item1)))) == Success &&
        !(roots.0 <= roots.1) &&
        (DirExists(d, fullPath(item0)) ==> DirExists(r.1, roots.1))
  {
    var r := CopyRenameReplace(item0, item1, curDir, fullPath, rules, paths, d);
    if item0 == item1 || |curDir| + 1 >= MaxPath || |item0| >= MaxPath || |item1| >= MaxPath {
    } else if NameCode(ApplyRules(rules, FindTitle(fullPath(item1)))) != Success {
    } else {
      var roots := Roots(item0, item1, fullPath, rules, d);
      if !(roots.0 <= roots.1) {
        assert r == CopyRenameReplaceMain(roots.0, roots.1, rules, paths, d);
        MainCodes(roots.0, roots.1, rules, paths, d);
        MainChangesOnlyAfterChecks(roots.0, roots.1, rules, paths, d);
        if r.0 in {InvalidDest, NoSource, NotDir, NotFile, CantRead, CantWrite} {
          MainRefusalsLeaveDiskUnchanged(roots.0, roots.1, rules, paths, d);
        }
      }
    }
  }

  /** A destination inside the source directory is refused before anything
      is written. */
  lemma TreeIntoItselfRejected(item0: Path, item1: Path, curDir: Path, fullPath: Path -> Path,
                               rules: seq<MapEntry>, paths: seq<Path>, d: Disk)
    requires NonEmptyKeys(rules)
    requires item0 != item1
    requires |curDir| + 1 < MaxPath && |item0| < MaxPath && |item1| < MaxPath
    requires DirExists(d, fullPath(item0))
    requires AddSep(fullPath(item0)) <= DirPart(fullPath(item1))
    ensures CopyRenameReplace(item0, item1, curDir, fullPath, rules, paths, d).0 in {InvalidDest, InvalidName, InvalidChar}
    ensures CopyRenameReplace(item0, item1, curDir, fullPath, rules, paths, d).1 == d
  {
    var full1 := fullPath(item1);
    var title := ApplyRules(rules, FindTitle(full1));
    var dest := DirPart(full1) + title;
    var roots := Roots(item0, item1, fullPath, rules, d);
    assert roots == (AddSep(fullPath(item0)), AddSep(dest));
    assert DirPart(full1) <= dest;
    assert dest <= AddSep(dest);
  }

  /** Equal full paths are refused when the rules leave the destination's
      last component as it is. */
  lemma EqualFullPathsRejected(item0: Path, item1: Path, curDir: Path, fullPath: Path -> Path,
                               rules: seq<MapEntry>, paths: seq<Path>, d: Disk)
    requires NonEmptyKeys(rules)
    requires |curDir| + 1 < MaxPath && |item0| < MaxPath && |item1| < MaxPath
    requires fullPath(item0) == fullPath(item1)
    requires ApplyRules(rules, FindTitle(fullPath(item1))) == FindTitle(fullPath(item1))
    ensures CopyRenameReplace(item0, item1, curDir, fullPath, rules, paths, d).0 in {InvalidDest, InvalidName, InvalidChar}
    ensures CopyRenameReplace(item0, item1, curDir, fullPath, rules, paths, d).1 == d
  {
    TitleSplit(fullPath(item1));
    var roots := Roots(item0, item1, fullPath, rules, d);
    assert roots.0 == roots.1;
  }

  /** The rule `a` to `b` turns `a.txt` into `b.txt` and `a` into `b`. */
  lemma RenameExampleText()
    ensures ApplyRules([MapEntry("a", "b")], "a.txt") == "b.txt"
    ensures ApplyRules([MapEntry("a", "b")], "a") == "b"
  {
    assert MatchAt("a", "a.txt", 0);
    assert "a.txt"[1..] == ".txt";
    forall i ensures !MatchAt("a", ".txt", i) {
      if 0 <= i && i + 1 <= 4 {
        assert ".txt"[i..i + 1][0] == ".txt"[i];
      }
    }
    ReplaceAllAbsent(".txt", "a", "b");
    assert ReplaceAll("a.txt", "a", "b") == "b.txt";
    assert ReplaceAll("a", "a", "b") == "b";
  }

  /** The path `C:\\w\\a.txt` splits into `C:\\w\\` and `a.txt`, and the renamed
      title `b.txt` is a valid name. */
  lemma RenameExamplePath()
    ensures FindTitle("C:\\w\\a.txt") == "a.txt" && DirPart("C:\\w\\a.txt") == "C:\\w\\"
    ensures NameCode("b.txt") == Success
  {
    var full := "C:\\w\\a.txt";
    assert IsSep(full[4]);
    assert TitleStart(full) == 5;
    assert forall i :: 0 <= i < |Reserved| ==> |Reserved[i]| != 5;
  }

  /** Renaming the last component makes the same file a valid source for a
      copy beside itself: `a.txt` with the rule `a` to `b` goes to `b.txt`. */
  lemma RenamedTitleCopiesBesideItself()
    ensures var d := Disk(map["C:\\w\\a.txt" := File("a")], {}, {}, {});
      CopyRenameReplace("a.txt", "./a.txt", "C:\\w", p => "C:\\w\\a.txt", [MapEntry("a", "b")], [], d) ==
        (Success, d.(nodes := d.nodes["C:\\w\\b.txt" := File("b")]))
  {
    var d := Disk(map["C:\\w\\a.txt" := File("a")], {}, {}, {});
    var rules := [MapEntry("a", "b")];
    var full := "C:\\w\\a.txt";
    var dest := "C:\\w\\b.txt";
    RenameExamplePath();
    RenameExampleText();
    assert DirPart(full) + ApplyRules(rules, FindTitle(full)) == dest;
    assert !(full <= dest) by {
      assert full[5] != dest[5];
    }
    assert !DirExists(d, full);
    assert CopyRenameReplaceMain(full, dest, rules, [], d) == (Success, d.(nodes := d.nodes[dest := File("b")]));
  }

  /** `CopyRenameReplace` with the refusal its `item0 == item1` test means:
      two arguments that resolve to the same path are refused whatever the
      rules make of the destination's last component. */
  function StrictCopyRenameReplace(item0: Path, item1: Path, curDir: Path, fullPath: Path -> Path,
                                   rules: seq<MapEntry>, paths: seq<Path>, d: Disk): (ExitCode, Disk)
    requires NonEmptyKeys(rules)
  {
    if item0 != item1 && |curDir| + 1 < MaxPath && |item0| < MaxPath && |item1| < MaxPath &&
       Norm(fullPath(item0)) == Norm(fullPath(item1))
    then (InvalidDest, d)
    else CopyRenameReplace(item0, item1, curDir, fullPath, rules, paths, d)
  }

  /** The strict variant refuses two arguments naming the same path and
      leaves the disk alone; on distinct paths it is `CopyRenameReplace`. */
  lemma StrictRefusesSamePath(item0: Path, item1: Path, curDir: Path, fullPath: Path -> Path,
                              rules: seq<MapEntry>, paths: seq<Path>, d: Disk)
    requires NonEmptyKeys(rules)
    ensures Norm(fullPath(item0)) == Norm(fullPath(item1)) ==>
              StrictCopyRenameReplace(item0, item1, curDir, fullPath, rules, paths, d).0 in {InvalidDest, TooLongPath} &&
              StrictCopyRenameReplace(item0, item1, curDir, fullPath, rules, paths, d).1 == d
    ensures Norm(fullPath(item0)) != Norm(fullPath(item1)) ==>
              StrictCopyRenameReplace(item0, item1, curDir, fullPath, rules, paths, d) ==
                CopyRenameReplace(item0, item1, curDir, fullPath, rules, paths, d)
  {
  }

  /** On the arguments where `CopyRenameReplace` copies `a.txt` beside
      itself, the strict variant refuses. */
  lemma StrictRefusesRenamedTitle()
    ensures var d := Disk(map["C:\\w\\a.txt" := File("a")], {}, {}, {});
      StrictCopyRenameReplace("a.txt", "./a.txt", "C:\\w", p => "C:\\w\\a.txt", [MapEntry("a", "b")], [], d) ==
        (InvalidDest, d)
  {
  }

  /** In file mode a destination whose full path merely extends the source's
      is refused as if it lay inside the source: `a.txt` cannot be copied to
      `a.txt.bak`. */
  lemma ExtendedFileNameRejected()
    ensures var d := Disk(map["C:\\w\\a.txt" := File("x")], {}, {}, {});
      CopyRenameReplace("C:\\w\\a.txt", "C:\\w\\a.txt.bak", "C:\\w", p => p, [], [], d) == (InvalidDest, d)
  {
    var full1 := "C:\\w\\a.txt.bak";
    assert IsSep(full1[4]);
    assert TitleStart(full1) == 5;
    assert FindTitle(full1) == "a.txt.bak";
    assert DirPart(full1) == "C:\\w\\";
    LongNamesAreNotReserved("a.txt.bak");
    assert "C:\\w\\a.txt" <= full1;
  }

  /** `main`: print the help and succeed when there are fewer than
      two paths or the first is `--help` or `--version`; otherwise build the
      map, stop on a refused replacement, and copy. */
  function CommandLine(argv: seq<string>, curDir: Path, fullPath: Path -> Path,
                              paths: seq<Path>, d: Disk): (ExitCode, Disk)
    requires PatternsNonEmpty(argv, 3)
  {
    if |argv| < 3 || EqualsIgnoreCase(argv[1], "--help") || EqualsIgnoreCase(argv[1], "--version") then
      (Success, d)
    else
      var registered := Register(argv, 3, []);
      if registered.0 != Success then (registered.0, d)
      else
        RegisterKeepsKeysNonEmpty(argv, 3, []);
        CopyRenameReplace(argv[1], argv[2], curDir, fullPath, registered.1, paths, d)
  }

  /** A replacement refused by `CheckChars` stops `main` before anything is
      copied, and otherwise the exit code is that of the copy. */
  lemma CommandLineScreensReplacements(argv: seq<string>, curDir: Path, fullPath: Path -> Path,
                                       paths: seq<Path>, d: Disk)
    requires PatternsNonEmpty(argv, 3)
    requires |argv| >= 3 && !EqualsIgnoreCase(argv[1], "--help") && !EqualsIgnoreCase(argv[1], "--version")
    ensures (exists n: nat :: RefusedPair(argv, 3, n)) <==>
              CommandLine(argv, curDir, fullPath, paths, d) == (InvalidChar, d) &&
              Register(argv, 3, []).0 == InvalidChar
    ensures (forall n: nat :: !RefusedPair(argv, 3, n)) ==>
              NonEmptyKeys(Register(argv, 3, []).1) &&
              CommandLine(argv, curDir, fullPath, paths, d) ==
                CopyRenameReplace(argv[1], argv[2], curDir, fullPath, Register(argv, 3, []).1, paths, d)
  {
    RegisterRefuses(argv, 3, []);
    RegisterKeepsKeysNonEmpty(argv, 3, []);
  }
}
