/** The filesystem the tool works on, as a value. The operating-system calls
    the tool makes (existence tests, directory creation, whole-file read and
    write, the path helpers) are functions over it. Which calls fail is given
    by three sets of paths, so that every outcome of the tool can be stated. */
module FileSystem {

  type Path = string

  datatype Node = File(text: string) | Dir

  /** `nodes` holds every existing file and directory under its path without a
      trailing separator. Reading a path in `unreadable`, writing one in
      `unwritable` or creating a directory at one in `uncreatable` fails. */
  datatype Disk = Disk(
    nodes: map<Path, Node>,
    unreadable: set<Path>,
    unwritable: set<Path>,
    uncreatable: set<Path>)

  /** Both separators the Windows path functions accept. */
  predicate IsSep(c: char)
  {
    c == '\\' || c == '/'
  }

  predicate EndsWithSep(p: Path)
  {
    |p| > 0 && IsSep(p[|p| - 1])
  }

  /** The key a path is looked up under: one trailing separator is dropped,
      so `D\` and `D` name the same directory. A plain file is found under a
      name ending in a separator too, which Windows path handling would not
      allow. */
  function Norm(p: Path): Path
  {
    if EndsWithSep(p) then p[..|p| - 1] else p
  }

  /** `mpath_AddSep`: append a backslash unless one is there. */
  function AddSep(p: Path): (r: Path)
    ensures EndsWithSep(r)
    ensures p <= r
    ensures Norm(r) == Norm(p)
  {
    if EndsWithSep(p) then p else p + "\\"
  }

  /** `mdir_Exists`. */
  predicate DirExists(d: Disk, p: Path)
  {
    Norm(p) in d.nodes && d.nodes[Norm(p)].Dir?
  }

  /** `mfile_Exists`. */
  predicate FileExists(d: Disk, p: Path)
  {
    Norm(p) in d.nodes && d.nodes[Norm(p)].File?
  }

  /** `mpath_Exists`. */
  predicate PathExists(d: Disk, p: Path)
  {
    Norm(p) in d.nodes
  }

  /** `mdir_Create`: fails where something already exists or where creation
      is refused; otherwise adds an empty directory. */
  function CreateDir(d: Disk, p: Path): (r: (bool, Disk))
    ensures r.0 <==> !PathExists(d, p) && Norm(p) !in d.uncreatable
    ensures r.0 ==> r.1 == d.(nodes := d.nodes[Norm(p) := Dir])
    ensures !r.0 ==> r.1 == d
  {
    if PathExists(d, p) || Norm(p) in d.uncreatable then (false, d)
    else (true, d.(nodes := d.nodes[Norm(p) := Dir]))
  }

  /** `mfile_GetContents` succeeds. */
  predicate CanRead(d: Disk, p: Path)
  {
    FileExists(d, p) && Norm(p) !in d.unreadable
  }

  /** The text `mfile_GetContents` delivers, once decoded. */
  function ReadText(d: Disk, p: Path): string
    requires CanRead(d, p)
  {
    d.nodes[Norm(p)].text
  }

  /** `mfile_PutContents`: creates or overwrites a file; fails on a directory
      or where writing is refused. */
  function PutContents(d: Disk, p: Path, text: string): (r: (bool, Disk))
    ensures r.0 <==> !DirExists(d, p) && Norm(p) !in d.unwritable
    ensures r.0 ==> r.1 == d.(nodes := d.nodes[Norm(p) := File(text)])
    ensures !r.0 ==> r.1 == d
  {
    if DirExists(d, p) || Norm(p) in d.unwritable then (false, d)
    else (true, d.(nodes := d.nodes[Norm(p) := File(text)]))
  }

  /** Where the last component of `p` starts: just after its last separator. */
  function TitleStart(p: Path): (k: nat)
    ensures k <= |p|
    ensures forall j :: k <= j < |p| ==> !IsSep(p[j])
    ensures k == 0 || IsSep(p[k - 1])
    decreases |p|
  {
    if |p| == 0 then 0
    else if IsSep(p[|p| - 1]) then |p|
    else TitleStart(p[..|p| - 1])
  }

  /** `mpath_FindTitle`: the text after the last separator. */
  function FindTitle(p: Path): Path
  {
    p[TitleStart(p)..]
  }

  /** What precedes the title: empty, or ending with a separator. */
  function DirPart(p: Path): Path
  {
    p[..TitleStart(p)]
  }

  /** A path splits into its directory part and its title, and the title
      holds no separator. */
  lemma TitleSplit(p: Path)
    ensures DirPart(p) + FindTitle(p) == p
    ensures forall j :: 0 <= j < |FindTitle(p)| ==> !IsSep(FindTitle(p)[j])
    ensures DirPart(p) == [] || EndsWithSep(DirPart(p))
    ensures !EndsWithSep(p) ==> |FindTitle(p)| > 0 || p == []
  {
    assert forall j :: 0 <= j < |FindTitle(p)| ==> FindTitle(p)[j] == p[TitleStart(p) + j];
  }

  /** Creating a directory or writing a file never removes a directory. */
  lemma DirsPersist(d: Disk, p: Path, q: Path, text: string)
    requires DirExists(d, q)
    ensures DirExists(CreateDir(d, p).1, q)
    ensures DirExists(PutContents(d, p, text).1, q)
  {
  }
}
