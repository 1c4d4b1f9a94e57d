/** The file transform unit: copy one file, applying the substitution map to
    its text. */
module FileTransform {
  import opened ExitCodes
  import opened SubstitutionMap
  import opened FileSystem

  /** `ReplaceFile`: read the source (CantRead if that fails), apply the rules
      to its text, write the result to the destination (CantWrite if that
      fails). Nothing but the destination entry can change. */
  function ReplaceFile(src: Path, dst: Path, rules: seq<MapEntry>, d: Disk): (r: (ExitCode, Disk))
    requires NonEmptyKeys(rules)
    ensures r.0 in {Success, CantRead, CantWrite}
    ensures r.0 == CantRead <==> !CanRead(d, src)
    ensures r.0 == CantWrite <==> CanRead(d, src) && (DirExists(d, dst) || Norm(dst) in d.unwritable)
    ensures r.0 != Success ==> r.1 == d
    ensures r.0 == Success ==>
              r.1 == d.(nodes := d.nodes[Norm(dst) := File(ApplyRules(rules, ReadText(d, src)))])
  {
    if !CanRead(d, src) then (CantRead, d)
    else
      var written := PutContents(d, dst, ApplyRules(rules, ReadText(d, src)));
      if written.0 then (Success, written.1) else (CantWrite, written.1)
  }

  /** `CopyRenameReplaceFile`, file mode: one transform from source to
      destination. On success the destination holds the source's text with the
      rules applied, and with no rules it is a verbatim copy. */
  function CopyRenameReplaceFile(path0: Path, path1: Path, rules: seq<MapEntry>, d: Disk): (r: (ExitCode, Disk))
    requires NonEmptyKeys(rules)
    ensures r.0 in {Success, CantRead, CantWrite}
    ensures r.0 != Success ==> r.1 == d
    ensures r.0 == Success ==>
              FileExists(r.1, path1) && CanRead(d, path0) &&
              r.1.nodes[Norm(path1)].text == ApplyRules(rules, ReadText(d, path0))
    ensures r.0 == Success && rules == [] ==> r.1.nodes[Norm(path1)] == d.nodes[Norm(path0)]
    ensures r.0 == Success ==>
              r.1 == d.(nodes := d.nodes[Norm(path1) := File(ApplyRules(rules, ReadText(d, path0)))])
    ensures r.1.unreadable == d.unreadable && r.1.unwritable == d.unwritable && r.1.uncreatable == d.uncreatable
    ensures r.1.nodes.Keys <= d.nodes.Keys + {Norm(path1)}
    ensures forall q :: q != Norm(path1) && q in d.nodes ==> q in r.1.nodes && r.1.nodes[q] == d.nodes[q]
  {
    ReplaceFile(path0, path1, rules, d)
  }
}
