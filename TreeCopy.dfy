/** Directory mode: the two passes of `CopyRenameReplaceDir` over the listing
    of the source tree. The first pass validates every renamed entry and the
    second creates directories and transforms files. */
module TreeCopy {
  import opened ExitCodes
  import opened NameCheck
  import opened SubstitutionMap
  import opened FileSystem
  import opened FileTransform

  /** An entry's path relative to the source root, with the rules applied. */
  function Renamed(path0: Path, rules: seq<MapEntry>, p: Path): Path
    requires NonEmptyKeys(rules) && path0 <= p
  {
    ApplyRules(rules, p[|path0|..])
  }

  /** The name the first pass validates for an entry. */
  function NewTitle(path0: Path, rules: seq<MapEntry>, p: Path): Path
    requires NonEmptyKeys(rules) && path0 <= p
  {
    FindTitle(Renamed(path0, rules, p))
  }

  /** Where the second pass puts an entry. */
  function Dest(path0: Path, path1: Path, rules: seq<MapEntry>, p: Path): Path
    requires NonEmptyKeys(rules) && path0 <= p
  {
    path1 + Renamed(path0, rules, p)
  }

  /** Every entry under the source root gets a valid new name. */
  predicate AllNamesValid(path0: Path, rules: seq<MapEntry>, paths: seq<Path>)
    requires NonEmptyKeys(rules)
  {
    forall k :: 0 <= k < |paths| && path0 <= paths[k] ==> NameCode(NewTitle(path0, rules, paths[k])) == Success
  }

  /** The first pass: the verdict on the first entry whose new name is
      refused, or Success. Entries outside the source root are skipped. */
  function ValidatePass(path0: Path, rules: seq<MapEntry>, paths: seq<Path>): ExitCode
    requires NonEmptyKeys(rules)
    decreases |paths|
  {
    if paths == [] then Success
    else if !(path0 <= paths[0]) then ValidatePass(path0, rules, paths[1..])
    else
      var c := NameCode(NewTitle(path0, rules, paths[0]));
      if c != Success then c else ValidatePass(path0, rules, paths[1..])
  }

  /** The second pass. A directory entry creates its destination, and stops
      the pass with CantCreateDir only when that fails and the destination is
      still not a directory. A file entry is transformed, but its outcome is
      dropped: the test after the transform looks at the pass's status, which
      is still Success, rather than at the transform's, so a failed transform
      neither stops the pass nor shows in its result. */
  function ExecutePass(path0: Path, path1: Path, rules: seq<MapEntry>, paths: seq<Path>, d: Disk): (ExitCode, Disk)
    requires NonEmptyKeys(rules)
    decreases |paths|
  {
    if paths == [] then (Success, d)
    else if !(path0 <= paths[0]) then ExecutePass(path0, path1, rules, paths[1..], d)
    else
      var dest := Dest(path0, path1, rules, paths[0]);
      if DirExists(d, paths[0]) then
        var created := CreateDir(d, dest);
        if !created.0 && !DirExists(created.1, dest) then (CantCreateDir, created.1)
        else ExecutePass(path0, path1, rules, paths[1..], created.1)
      else
        ExecutePass(path0, path1, rules, paths[1..], ReplaceFile(paths[0], dest, rules, d).1)
  }

  /** The whole of `CopyRenameReplaceDir`: nothing is written unless the first
      pass accepts every name. */
  function DirCopy(path0: Path, path1: Path, rules: seq<MapEntry>, paths: seq<Path>, d: Disk): (ExitCode, Disk)
    requires NonEmptyKeys(rules)
  {
    var verdict := ValidatePass(path0, rules, paths);
    if verdict != Success then (verdict, d) else ExecutePass(path0, path1, rules, paths, d)
  }

  method CopyRenameReplaceDir(path0: Path, path1: Path, m: MapType, paths: seq<Path>, d: Disk)
    returns (ret: ExitCode, after: Disk)
    requires NonEmptyKeys(m.entries)
    ensures (ret, after) == DirCopy(path0, path1, m.entries, paths, d)
  {
    ret := Success;
    after := d;
    var i := 0;
    while i < |paths|
      invariant 0 <= i <= |paths|
      invariant ret == Success
      invariant ValidatePass(path0, m.entries, paths[i..]) == ValidatePass(path0, m.entries, paths)
    {
      assert paths[i..][1..] == paths[i + 1..];
      var oldPath := paths[i];
      if !(path0 <= oldPath) {
        i := i + 1;
        continue;
      }
      var newPath := oldPath[|path0|..];
      newPath := ReplaceStringByMap(newPath, m);
      var title := FindTitle(newPath);
      ret := CheckName(title);
      if ret != Success {
        return;
      }
      i := i + 1;
    }

    i := 0;
    while i < |paths|
      invariant 0 <= i <= |paths|
      invariant ret == Success
      invariant ExecutePass(path0, path1, m.entries, paths[i..], after) == ExecutePass(path0, path1, m.entries, paths, d)
    {
      assert paths[i..][1..] == paths[i + 1..];
      var oldPath := paths[i];
      if !(path0 <= oldPath) {
        i := i + 1;
        continue;
      }
      var newPath := oldPath[|path0|..];
      newPath := ReplaceStringByMap(newPath, m);
      newPath := path1 + newPath;
      if DirExists(after, oldPath) {
        var created := CreateDir(after, newPath);
        after := created.1;
        if !created.0 && !DirExists(after, newPath) {
          ret := CantCreateDir;
          break;
        }
      } else {
        var transformed := ReplaceFile(oldPath, newPath, m.entries, after);
        var ret2 := transformed.0;
        after := transformed.1;
        if ret != Success {
          ret := ret2;
          break;
        }
      }
      i := i + 1;
    }
  }

  /** The first pass accepts exactly when every entry's new name is valid, and
      otherwise refuses with InvalidName or InvalidChar. */
  lemma {:induction false} ValidatePassAcceptsValidNames(path0: Path, rules: seq<MapEntry>, paths: seq<Path>)
    requires NonEmptyKeys(rules)
    ensures ValidatePass(path0, rules, paths) in {Success, InvalidName, InvalidChar}
    ensures ValidatePass(path0, rules, paths) == Success <==> AllNamesValid(path0, rules, paths)
    decreases |paths|
  {
    if paths != [] {
      var tail := paths[1..];
      ValidatePassAcceptsValidNames(path0, rules, tail);
      assert forall k :: 0 <= k < |tail| ==> tail[k] == paths[k + 1];
      if path0 <= paths[0] {
        NameCodeOutcomes(NewTitle(path0, rules, paths[0]));
      }
      if AllNamesValid(path0, rules, tail) && (path0 <= paths[0] ==> NameCode(NewTitle(path0, rules, paths[0])) == Success) {
        forall k | 0 <= k < |paths| && path0 <= paths[k]
          ensures NameCode(NewTitle(path0, rules, paths[k])) == Success
        {
          if k > 0 {
            assert paths[k] == tail[k - 1];
          }
        }
      }
    }
  }

  /** A refusal is the verdict on the first entry whose new name is invalid. */
  lemma {:induction false} ValidatePassReportsFirstInvalid(path0: Path, rules: seq<MapEntry>, paths: seq<Path>)
    requires NonEmptyKeys(rules)
    requires ValidatePass(path0, rules, paths) != Success
    ensures exists k :: 0 <= k < |paths| && path0 <= paths[k] &&
              ValidatePass(path0, rules, paths) == NameCode(NewTitle(path0, rules, paths[k])) &&
              forall j :: 0 <= j < k && path0 <= paths[j] ==> NameCode(NewTitle(path0, rules, paths[j])) == Success
    decreases |paths|
  {
    var tail := paths[1..];
    if path0 <= paths[0] && NameCode(NewTitle(path0, rules, paths[0])) != Success {
      assert 0 < |paths| && path0 <= paths[0] &&
        ValidatePass(path0, rules, paths) == NameCode(NewTitle(path0, rules, paths[0]));
    } else {
      ValidatePassReportsFirstInvalid(path0, rules, tail);
      var k :| 0 <= k < |tail| && path0 <= tail[k] &&
        ValidatePass(path0, rules, tail) == NameCode(NewTitle(path0, rules, tail[k])) &&
        forall j :: 0 <= j < k && path0 <= tail[j] ==> NameCode(NewTitle(path0, rules, tail[j])) == Success;
      assert paths[k + 1] == tail[k];
      forall j | 0 <= j < k + 1 && path0 <= paths[j]
        ensures NameCode(NewTitle(path0, rules, paths[j])) == Success
      {
        if j > 0 {
          assert paths[j] == tail[j - 1];
        }
      }
    }
  }

  /** Validation is total before any mutation: if one name is refused the
      disk is returned as it was, and if the disk changed every name passed. */
  lemma DirCopyValidatesFirst(path0: Path, path1: Path, rules: seq<MapEntry>, paths: seq<Path>, d: Disk)
    requires NonEmptyKeys(rules)
    ensures !AllNamesValid(path0, rules, paths) ==>
              DirCopy(path0, path1, rules, paths, d).1 == d &&
              DirCopy(path0, path1, rules, paths, d).0 in {InvalidName, InvalidChar}
    ensures DirCopy(path0, path1, rules, paths, d).1 != d ==> AllNamesValid(path0, rules, paths)
  {
    ValidatePassAcceptsValidNames(path0, rules, paths);
  }

  /** The second pass reports only Success or CantCreateDir: a failed file
      transform never reaches the result. */
  lemma {:induction false} ExecutePassCodes(path0: Path, path1: Path, rules: seq<MapEntry>, paths: seq<Path>, d: Disk)
    requires NonEmptyKeys(rules)
    ensures ExecutePass(path0, path1, rules, paths, d).0 in {Success, CantCreateDir}
    decreases |paths|
  {
    if paths != [] {
      var p := paths[0];
      if !(path0 <= p) {
        ExecutePassCodes(path0, path1, rules, paths[1..], d);
      } else if DirExists(d, p) {
        ExecutePassCodes(path0, path1, rules, paths[1..], CreateDir(d, Dest(path0, path1, rules, p)).1);
      } else {
        ExecutePassCodes(path0, path1, rules, paths[1..], ReplaceFile(p, Dest(path0, path1, rules, p), rules, d).1);
      }
    }
  }

  /** The pass over a listing split in two: the second part runs on the disk
      the first part leaves, unless the first part ended with CantCreateDir,
      which stops the pass there with nothing after it done. */
  lemma {:induction false} ExecutePassAppend(path0: Path, path1: Path, rules: seq<MapEntry>, p1: seq<Path>, p2: seq<Path>, d: Disk)
    requires NonEmptyKeys(rules)
    ensures var r1 := ExecutePass(path0, path1, rules, p1, d);
      ExecutePass(path0, path1, rules, p1 + p2, d) ==
        (if r1.0 == CantCreateDir then r1 else ExecutePass(path0, path1, rules, p2, r1.1))
    decreases |p1|
  {
    if p1 == [] {
      assert p1 + p2 == p2;
    } else {
      var p := p1[0];
      assert (p1 + p2)[0] == p;
      assert (p1 + p2)[1..] == p1[1..] + p2;
      ExecutePassCodes(path0, path1, rules, p1, d);
      if !(path0 <= p) {
        ExecutePassAppend(path0, path1, rules, p1[1..], p2, d);
      } else if DirExists(d, p) {
        ExecutePassAppend(path0, path1, rules, p1[1..], p2, CreateDir(d, Dest(path0, path1, rules, p)).1);
      } else {
        ExecutePassAppend(path0, path1, rules, p1[1..], p2, ReplaceFile(p, Dest(path0, path1, rules, p), rules, d).1);
      }
    }
  }

  /** `q` is the key of some entry's destination. */
  predicate IsDestKey(path0: Path, path1: Path, rules: seq<MapEntry>, paths: seq<Path>, q: Path)
    requires NonEmptyKeys(rules)
  {
    exists k :: 0 <= k < |paths| && path0 <= paths[k] && q == Norm(Dest(path0, path1, rules, paths[k]))
  }

  /** A disk that differs from `d` at most by the node at `dest`, where a
      directory stays a directory. */
  lemma StepFrame(d: Disk, d1: Disk, dest: Path, n: Node)
    requires d1 == d || (d1 == d.(nodes := d.nodes[Norm(dest) := n]) && (DirExists(d, dest) ==> n.Dir?))
    ensures d1.unreadable == d.unreadable && d1.unwritable == d.unwritable && d1.uncreatable == d.uncreatable
    ensures forall q :: q in d.nodes ==> q in d1.nodes
    ensures forall q :: q in d1.nodes && (q !in d.nodes || d1.nodes[q] != d.nodes[q]) ==> q == Norm(dest)
    ensures forall q :: DirExists(d, q) ==> DirExists(d1, q)
  {
  }

  /** The disk after the second pass handles entry `p`. */
  function StepDisk(path0: Path, path1: Path, rules: seq<MapEntry>, p: Path, d: Disk): Disk
    requires NonEmptyKeys(rules) && path0 <= p
  {
    var dest := Dest(path0, path1, rules, p);
    if DirExists(d, p) then CreateDir(d, dest).1 else ReplaceFile(p, dest, rules, d).1
  }

  /** One step of the second pass changes the disk at most at the entry's
      destination, and keeps every directory. */
  lemma StepDiskFrame(path0: Path, path1: Path, rules: seq<MapEntry>, p: Path, d: Disk)
    requires NonEmptyKeys(rules) && path0 <= p
    ensures var d1 := StepDisk(path0, path1, rules, p, d);
      d1.unreadable == d.unreadable && d1.unwritable == d.unwritable && d1.uncreatable == d.uncreatable &&
      (forall q :: q in d.nodes ==> q in d1.nodes) &&
      (forall q :: q in d1.nodes && (q !in d.nodes || d1.nodes[q] != d.nodes[q]) ==>
         q == Norm(Dest(path0, path1, rules, p))) &&
      (forall q :: DirExists(d, q) ==> DirExists(d1, q))
  {
    var dest := Dest(path0, path1, rules, p);
    var d1 := StepDisk(path0, path1, rules, p, d);
    if DirExists(d, p) {
      StepFrame(d, d1, dest, Dir);
    } else if ReplaceFile(p, dest, rules, d).0 == Success {
      StepFrame(d, d1, dest, File(ApplyRules(rules, ReadText(d, p))));
    } else {
      StepFrame(d, d1, dest, Dir);
    }
  }

  /** What the second pass leaves alone: the failure sets, every existing
      entry that is not some entry's destination, and every directory. */
  lemma {:induction false} ExecutePassFrame(path0: Path, path1: Path, rules: seq<MapEntry>, paths: seq<Path>, d: Disk)
    requires NonEmptyKeys(rules)
    ensures var after := ExecutePass(path0, path1, rules, paths, d).1;
      after.unreadable == d.unreadable && after.unwritable == d.unwritable && after.uncreatable == d.uncreatable
    ensures var after := ExecutePass(path0, path1, rules, paths, d).1;
      forall q :: q in d.nodes ==> q in after.nodes
    ensures var after := ExecutePass(path0, path1, rules, paths, d).1;
      forall q :: q in after.nodes && (q !in d.nodes || after.nodes[q] != d.nodes[q]) ==>
        IsDestKey(path0, path1, rules, paths, q)
    ensures var after := ExecutePass(path0, path1, rules, paths, d).1;
      forall q :: DirExists(d, q) ==> DirExists(after, q)
    decreases |paths|
  {
    if paths == [] {
    } else if path0 <= paths[0] && DirExists(d, paths[0]) &&
              !CreateDir(d, Dest(path0, path1, rules, paths[0])).0 &&
              !DirExists(d, Dest(path0, path1, rules, paths[0])) {
      assert ExecutePass(path0, path1, rules, paths, d).1 == d;
    } else {
      var p, tail := paths[0], paths[1..];
      var d1 := if path0 <= p then StepDisk(path0, path1, rules, p, d) else d;
      assert ExecutePass(path0, path1, rules, paths, d).1 == ExecutePass(path0, path1, rules, tail, d1).1;
      ExecutePassFrame(path0, path1, rules, tail, d1);
      forall q | IsDestKey(path0, path1, rules, tail, q)
        ensures IsDestKey(path0, path1, rules, paths, q)
      {
        var k :| 0 <= k < |tail| && path0 <= tail[k] && q == Norm(Dest(path0, path1, rules, tail[k]));
        assert paths[k + 1] == tail[k];
      }
      if path0 <= p {
        StepDiskFrame(path0, path1, rules, p, d);
        assert IsDestKey(path0, path1, rules, paths, Norm(Dest(path0, path1, rules, p))) by {
          assert path0 <= paths[0];
        }
      }
    }
  }

  /** On success every source directory has a directory at its destination,
      whether the pass created it or found it there. */
  lemma {:induction false} ExecutePassCreatesDirectories(path0: Path, path1: Path, rules: seq<MapEntry>, paths: seq<Path>, d: Disk)
    requires NonEmptyKeys(rules)
    requires ExecutePass(path0, path1, rules, paths, d).0 == Success
    ensures forall k :: 0 <= k < |paths| && path0 <= paths[k] && DirExists(d, paths[k]) ==>
              DirExists(ExecutePass(path0, path1, rules, paths, d).1, Dest(path0, path1, rules, paths[k]))
    decreases |paths|
  {
    if paths != [] {
      var p, tail := paths[0], paths[1..];
      var d1 := if path0 <= p then StepDisk(path0, path1, rules, p, d) else d;
      assert ExecutePass(path0, path1, rules, paths, d) == ExecutePass(path0, path1, rules, tail, d1);
      ExecutePassFrame(path0, path1, rules, tail, d1);
      ExecutePassCreatesDirectories(path0, path1, rules, tail, d1);
      if path0 <= p {
        StepDiskFrame(path0, path1, rules, p, d);
      }
      forall k | 0 <= k < |paths| && path0 <= paths[k] && DirExists(d, paths[k])
        ensures DirExists(ExecutePass(path0, path1, rules, paths, d).1, Dest(path0, path1, rules, paths[k]))
      {
        if k > 0 {
          assert paths[k] == tail[k - 1];
        }
      }
    }
  }

  /** A CantCreateDir names an entry whose destination was not a directory
      beforehand, and that entry was a directory beforehand or is itself the
      destination of some entry. */
  lemma {:induction false} CantCreateDirCause(path0: Path, path1: Path, rules: seq<MapEntry>, paths: seq<Path>, d: Disk)
    requires NonEmptyKeys(rules)
    requires ExecutePass(path0, path1, rules, paths, d).0 == CantCreateDir
    ensures exists k :: 0 <= k < |paths| && path0 <= paths[k] &&
              !DirExists(d, Dest(path0, path1, rules, paths[k])) &&
              (DirExists(d, paths[k]) || IsDestKey(path0, path1, rules, paths, Norm(paths[k])))
    decreases |paths|
  {
    var p, tail := paths[0], paths[1..];
    if path0 <= p && DirExists(d, p) &&
       !CreateDir(d, Dest(path0, path1, rules, p)).0 && !DirExists(d, Dest(path0, path1, rules, p)) {
      assert path0 <= paths[0] && DirExists(d, paths[0]);
    } else {
      var d1 := if path0 <= p then StepDisk(path0, path1, rules, p, d) else d;
      assert ExecutePass(path0, path1, rules, paths, d) == ExecutePass(path0, path1, rules, tail, d1);
      if path0 <= p {
        StepDiskFrame(path0, path1, rules, p, d);
      }
      CantCreateDirCause(path0, path1, rules, tail, d1);
      var k :| 0 <= k < |tail| && path0 <= tail[k] &&
        !DirExists(d1, Dest(path0, path1, rules, tail[k])) &&
        (DirExists(d1, tail[k]) || IsDestKey(path0, path1, rules, tail, Norm(tail[k])));
      assert paths[k + 1] == tail[k];
      if !DirExists(d, tail[k]) {
        if DirExists(d1, tail[k]) {
          assert Norm(tail[k]) == Norm(Dest(path0, path1, rules, paths[0]));
          assert IsDestKey(path0, path1, rules, paths, Norm(paths[k + 1]));
        } else {
          var j :| 0 <= j < |tail| && path0 <= tail[j] && Norm(tail[k]) == Norm(Dest(path0, path1, rules, tail[j]));
          assert paths[j + 1] == tail[j];
          assert IsDestKey(path0, path1, rules, paths, Norm(paths[k + 1]));
        }
      }
    }
  }

  /** A key that is a later entry's destination is some entry's destination. */
  lemma IsDestKeyOfTail(path0: Path, path1: Path, rules: seq<MapEntry>, paths: seq<Path>, q: Path)
    requires NonEmptyKeys(rules) && paths != []
    requires IsDestKey(path0, path1, rules, paths[1..], q)
    ensures IsDestKey(path0, path1, rules, paths, q)
  {
    var tail := paths[1..];
    var k :| 0 <= k < |tail| && path0 <= tail[k] && q == Norm(Dest(path0, path1, rules, tail[k]));
    assert paths[k + 1] == tail[k];
  }

  /** On success a file entry's destination holds the entry's text with the
      rules applied, provided the entry can be read, is not itself some
      entry's destination, and has a writable destination that is not a
      directory and that no other entry shares. */
  lemma {:induction false} ExecutePassTransformsFiles(path0: Path, path1: Path, rules: seq<MapEntry>, paths: seq<Path>, d: Disk, k: nat)
    requires NonEmptyKeys(rules)
    requires k < |paths| && path0 <= paths[k]
    requires CanRead(d, paths[k]) && !IsDestKey(path0, path1, rules, paths, Norm(paths[k]))
    requires !DirExists(d, Dest(path0, path1, rules, paths[k]))
    requires Norm(Dest(path0, path1, rules, paths[k])) !in d.unwritable
    requires forall j :: 0 <= j < |paths| && j != k && path0 <= paths[j] ==>
               Norm(Dest(path0, path1, rules, paths[j])) != Norm(Dest(path0, path1, rules, paths[k]))
    requires ExecutePass(path0, path1, rules, paths, d).0 == Success
    ensures var after := ExecutePass(path0, path1, rules, paths, d).1;
      Norm(Dest(path0, path1, rules, paths[k])) in after.nodes &&
      after.nodes[Norm(Dest(path0, path1, rules, paths[k]))] == File(ApplyRules(rules, ReadText(d, paths[k])))
    decreases |paths|
  {
    var p, tail := paths[0], paths[1..];
    var key := Norm(Dest(path0, path1, rules, paths[k]));
    var d1 := if path0 <= p then StepDisk(path0, path1, rules, p, d) else d;
    assert ExecutePass(path0, path1, rules, paths, d) == ExecutePass(path0, path1, rules, tail, d1);
    if k == 0 {
      assert d1 == ReplaceFile(p, Dest(path0, path1, rules, p), rules, d).1;
      assert d1.nodes[key] == File(ApplyRules(rules, ReadText(d, p)));
      ExecutePassFrame(path0, path1, rules, tail, d1);
      assert !IsDestKey(path0, path1, rules, tail, key) by {
        forall j | 0 <= j < |tail| && path0 <= tail[j]
          ensures Norm(Dest(path0, path1, rules, tail[j])) != key
        {
          assert paths[j + 1] == tail[j];
        }
      }
    } else {
      assert tail[k - 1] == paths[k];
      if path0 <= p {
        StepDiskFrame(path0, path1, rules, p, d);
        assert Norm(paths[k]) != Norm(Dest(path0, path1, rules, p)) by {
          assert path0 <= paths[0];
        }
        assert key != Norm(Dest(path0, path1, rules, paths[0]));
      }
      if IsDestKey(path0, path1, rules, tail, Norm(paths[k])) {
        IsDestKeyOfTail(path0, path1, rules, paths, Norm(paths[k]));
      }
      forall j | 0 <= j < |tail| && j != k - 1 && path0 <= tail[j]
        ensures Norm(Dest(path0, path1, rules, tail[j])) != key
      {
        assert paths[j + 1] == tail[j];
      }
      ExecutePassTransformsFiles(path0, path1, rules, tail, d1, k - 1);
    }
  }

  /** Running again over a destination tree that already exists: when every
      source directory's destination is already a directory and no destination
      coincides with a source entry, the second pass cannot fail. */
  lemma RerunSucceeds(path0: Path, path1: Path, rules: seq<MapEntry>, paths: seq<Path>, d: Disk)
    requires NonEmptyKeys(rules)
    requires forall k :: 0 <= k < |paths| && path0 <= paths[k] && DirExists(d, paths[k]) ==>
               DirExists(d, Dest(path0, path1, rules, paths[k]))
    requires forall j, k :: 0 <= j < |paths| && 0 <= k < |paths| && path0 <= paths[j] && path0 <= paths[k] ==>
               Norm(Dest(path0, path1, rules, paths[j])) != Norm(paths[k])
    ensures ExecutePass(path0, path1, rules, paths, d).0 == Success
  {
    ExecutePassCodes(path0, path1, rules, paths, d);
    if ExecutePass(path0, path1, rules, paths, d).0 == CantCreateDir {
      CantCreateDirCause(path0, path1, rules, paths, d);
    }
  }

  /** The second pass as the error branch at crr.cpp:267-271 means it to run:
      that branch prints NG, sets the result to the transform's code and
      breaks, so a failed transform stops the pass and is reported. */
  function AbortingExecutePass(path0: Path, path1: Path, rules: seq<MapEntry>, paths: seq<Path>, d: Disk): (ExitCode, Disk)
    requires NonEmptyKeys(rules)
    decreases |paths|
  {
    if paths == [] then (Success, d)
    else if !(path0 <= paths[0]) then AbortingExecutePass(path0, path1, rules, paths[1..], d)
    else
      var dest := Dest(path0, path1, rules, paths[0]);
      if DirExists(d, paths[0]) then
        var created := CreateDir(d, dest);
        if !created.0 && !DirExists(created.1, dest) then (CantCreateDir, created.1)
        else AbortingExecutePass(path0, path1, rules, paths[1..], created.1)
      else
        var transformed := ReplaceFile(paths[0], dest, rules, d);
        if transformed.0 != Success then transformed
        else AbortingExecutePass(path0, path1, rules, paths[1..], transformed.1)
  }

  /** The pass as written agrees with the intended one on every run in which
      no transform fails, and on every run that ends in CantCreateDir before
      a transform fails. */
  lemma {:induction false} ExecutePassAgreesUntilTransformFails(path0: Path, path1: Path, rules: seq<MapEntry>, paths: seq<Path>, d: Disk)
    requires NonEmptyKeys(rules)
    requires AbortingExecutePass(path0, path1, rules, paths, d).0 in {Success, CantCreateDir}
    ensures ExecutePass(path0, path1, rules, paths, d) == AbortingExecutePass(path0, path1, rules, paths, d)
    decreases |paths|
  {
    if paths != [] {
      var p := paths[0];
      if !(path0 <= p) {
        ExecutePassAgreesUntilTransformFails(path0, path1, rules, paths[1..], d);
      } else if DirExists(d, p) {
        var created := CreateDir(d, Dest(path0, path1, rules, p));
        if created.0 || DirExists(created.1, Dest(path0, path1, rules, p)) {
          ExecutePassAgreesUntilTransformFails(path0, path1, rules, paths[1..], created.1);
        }
      } else {
        var transformed := ReplaceFile(p, Dest(path0, path1, rules, p), rules, d);
        ExecutePassAgreesUntilTransformFails(path0, path1, rules, paths[1..], transformed.1);
      }
    }
  }

  /** The intended pass reports an unreadable file entry: it never ends in
      Success when the tree holds a file that cannot be read and that no
      entry's destination overwrites. */
  lemma {:induction false} AbortingExecutePassReportsUnreadable(path0: Path, path1: Path, rules: seq<MapEntry>, paths: seq<Path>, d: Disk, k: nat)
    requires NonEmptyKeys(rules)
    requires k < |paths| && path0 <= paths[k]
    requires FileExists(d, paths[k]) && Norm(paths[k]) in d.unreadable
    requires !IsDestKey(path0, path1, rules, paths, Norm(paths[k]))
    ensures AbortingExecutePass(path0, path1, rules, paths, d).0 != Success
    decreases |paths|
  {
    var p, tail := paths[0], paths[1..];
    if k > 0 && AbortingExecutePass(path0, path1, rules, paths, d).0 == Success {
      var d1 := if path0 <= p then StepDisk(path0, path1, rules, p, d) else d;
      assert AbortingExecutePass(path0, path1, rules, paths, d) == AbortingExecutePass(path0, path1, rules, tail, d1);
      assert tail[k - 1] == paths[k];
      if path0 <= p {
        StepDiskFrame(path0, path1, rules, p, d);
        assert Norm(paths[k]) != Norm(Dest(path0, path1, rules, p)) by {
          assert path0 <= paths[0];
        }
      }
      if IsDestKey(path0, path1, rules, tail, Norm(paths[k])) {
        IsDestKeyOfTail(path0, path1, rules, paths, Norm(paths[k]));
      }
      AbortingExecutePassReportsUnreadable(path0, path1, rules, tail, d1, k - 1);
    }
  }

  /** A directory copy whose only file cannot be read reports Success and
      creates nothing, where the intended pass reports CantRead. */
  lemma UnreadableFileIsNotReported()
    ensures var d := Disk(map["S\\notes.txt" := File("x")], {"S\\notes.txt"}, {}, {});
      DirCopy("S\\", "D\\", [], ["S\\notes.txt"], d) == (Success, d) &&
      AbortingExecutePass("S\\", "D\\", [], ["S\\notes.txt"], d) == (CantRead, d)
  {
    assert "S\\notes.txt"[2..] == "notes.txt";
    assert Norm("S\\notes.txt") == "S\\notes.txt";
    assert TitleStart("notes.txt") == 0;
    LongNamesAreNotReserved("notes.txt");
  }
}
