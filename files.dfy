/**
 * The local filesystem the sync code reads and writes through `std::fs`:
 * a map from path to node, and the few calls whose success depends on it.
 */
module Files {
  import opened Wrappers
  import opened Paths

  newtype byte = x: int | 0 <= x < 256

  /**
   * What a file holds. The zip format is not modelled byte by byte: a valid
   * zip archive is the list of its entries; anything else is raw bytes.
   */
  datatype Content = Bytes(data: seq<byte>) | Zip(entries: seq<Entry>)

  /** A zip entry: a file with its contents, or a directory, named by its path relative to the archive root. */
  datatype Entry = FileEntry(name: Path, data: Content) | DirEntry(name: Path)

  datatype Node = File(content: Content) | Dir

  type FileSystem = map<Path, Node>

  predicate IsFile(fs: FileSystem, p: Path) {
    p in fs && fs[p].File?
  }

  predicate IsDir(fs: FileSystem, p: Path) {
    p in fs && fs[p].Dir?
  }

  function Parent(p: Path): Path
    requires |p| > 0
  {
    p[..|p| - 1]
  }

  /**
   * Whether `File::create` / `fs::write` can open `p` for writing: its parent
   * is an existing directory and `p` is not itself a directory.
   */
  predicate CanCreate(fs: FileSystem, p: Path) {
    |p| > 0 && IsDir(fs, Parent(p)) && !IsDir(fs, p)
  }

  /** The non-empty prefixes of `p`: the directories `create_dir_all(p)` makes. */
  function Ancestry(p: Path): set<Path> {
    set i | 1 <= i <= |p| :: p[..i]
  }

  lemma AncestryStep(p: Path)
    requires |p| > 0
    ensures Ancestry(p) == Ancestry(Parent(p)) + {p}
    ensures p !in Ancestry(Parent(p))
  {
    var up := Parent(p);
    forall q | q in Ancestry(p) && q != p ensures q in Ancestry(up) {
      var i :| 1 <= i <= |p| && q == p[..i];
      assert q == up[..i];
    }
    forall q | q in Ancestry(up) ensures q in Ancestry(p) {
      var i :| 1 <= i <= |up| && q == up[..i];
      assert q == p[..i];
    }
    assert p == p[..|p|];
  }

  /** Every non-empty prefix of `p` as a directory: the closed form of a successful `create_dir_all`. */
  function DirsAlong(p: Path): (m: map<Path, Node>)
    ensures m.Keys == Ancestry(p)
    ensures forall q :: q in m ==> m[q] == Dir
  {
    map q | q in Ancestry(p) :: Dir
  }

  /** Making `p` a directory on top of its parent's `create_dir_all` is `create_dir_all(p)`. */
  lemma DirsAlongStep(fs: FileSystem, p: Path)
    requires |p| > 0
    ensures (fs + DirsAlong(Parent(p)))[p := Dir] == fs + DirsAlong(p)
    ensures IsFile(fs + DirsAlong(Parent(p)), p) == IsFile(fs, p)
  {
    AncestryStep(p);
    assert DirsAlong(p) == DirsAlong(Parent(p))[p := Dir];
  }

  /** Some prefix of `p` is a file. */
  predicate FileAlong(fs: FileSystem, p: Path) {
    exists q :: q in Ancestry(p) && IsFile(fs, q)
  }

  lemma FileAlongStep(fs: FileSystem, p: Path)
    requires |p| > 0
    ensures FileAlong(fs, p) <==> FileAlong(fs, Parent(p)) || IsFile(fs, p)
  {
    AncestryStep(p);
    if FileAlong(fs, p) && !IsFile(fs, p) {
      var q :| q in Ancestry(p) && IsFile(fs, q);
      assert q in Ancestry(Parent(p));
    }
  }

  /**
   * `fs::create_dir_all(p)`: fails when some prefix of `p` is a file;
   * otherwise every prefix of `p` is a directory afterwards and nothing else changes.
   */
  function CreateDirAll(fs: FileSystem, p: Path): (r: Option<FileSystem>)
    ensures r.None? <==> FileAlong(fs, p)
    ensures r.Some? ==> r.value == fs + DirsAlong(p)
    decreases |p|
  {
    if p == [] then
      assert Ancestry(p) == {};
      Some(fs)
    else
      FileAlongStep(fs, p);
      match CreateDirAll(fs, Parent(p))
      case None => None
      case Some(fs1) =>
        DirsAlongStep(fs, p);
        if IsFile(fs1, p) then None else Some(fs1[p := Dir])
  }
}
