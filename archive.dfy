/**
 * The archive side of the sync: the entries `zip_directory` writes for a
 * directory tree, and `unzip_file` as an abstract extraction of those entries.
 */
module Archive {
  import opened Wrappers
  import opened Paths
  import opened Files

  /** Where zipping can fail: creating the archive file, at one step of the walk, or finishing the archive. */
  datatype ZipFault = NoZipFault | CreateFails | StepFails(at: nat) | FinishFails

  /** What one path of the walk contributes to the archive. */
  datatype Walked = Skip | Add(entry: Entry) | Abort

  /**
   * One iteration of the walk in `zip_directory`: the source root is skipped;
   * a path not under the root makes `strip_prefix` fail; a file becomes a file
   * entry with its contents, a directory a directory entry, both named by the
   * path relative to the root.
   */
  function WalkStep(fs: FileSystem, src: Path, p: Path): (w: Walked)
    ensures w.Add? ==> IsPrefix(src, p) && p != src && p in fs && w.entry.name == p[|src|..]
    ensures w.Add? ==> w.entry == (if fs[p].File? then FileEntry(p[|src|..], fs[p].content) else DirEntry(p[|src|..]))
    ensures w.Abort? <==> p != src && !IsPrefix(src, p)
    ensures w.Skip? <==> p == src || (IsPrefix(src, p) && p !in fs)
  {
    if p == src then Skip
    else if !IsPrefix(src, p) then Abort
    else if IsFile(fs, p) then Add(FileEntry(p[|src|..], fs[p].content))
    else if IsDir(fs, p) then Add(DirEntry(p[|src|..]))
    else Skip
  }

  /**
   * The entries written for the walk `walk` of `src`, or None when a step fails;
   * each entry stands for one walked path.
   */
  function Pack(fs: FileSystem, src: Path, walk: seq<Path>, fault: ZipFault): (r: Option<seq<Entry>>)
    ensures r.Some? ==> |r.value| <= |walk|
    ensures r.Some? ==> forall e :: e in r.value ==> src + e.name in walk && src + e.name in fs
    decreases |walk|
  {
    if walk == [] then Some([])
    else
      var n := |walk| - 1;
      assert forall q :: q in walk[..n] ==> q in walk;
      match Pack(fs, src, walk[..n], fault)
      case None => None
      case Some(es) =>
        if fault == StepFails(n) then None
        else match WalkStep(fs, src, walk[n])
          case Skip => Some(es)
          case Add(e) =>
            assert walk[n] == walk[n][..|src|] + walk[n][|src|..];
            Some(es + [e])
          case Abort => None
  }

  /** Zipping the walk succeeds exactly when no step has a fault and every walked path lies under `src`. */
  lemma {:induction false} PackSucceeds(fs: FileSystem, src: Path, walk: seq<Path>, fault: ZipFault)
    ensures Pack(fs, src, walk, fault).Some? <==>
      forall i :: 0 <= i < |walk| ==> fault != StepFails(i) && IsPrefix(src, walk[i])
    decreases |walk|
  {
    if walk != [] {
      var n := |walk| - 1;
      PackSucceeds(fs, src, walk[..n], fault);
      assert forall i :: 0 <= i < n ==> walk[..n][i] == walk[i];
    }
  }

  /** Once a prefix of the walk has failed, the whole walk fails: any error aborts the operation. */
  lemma {:induction false} PackFailureSticks(fs: FileSystem, src: Path, walk: seq<Path>, fault: ZipFault, i: nat)
    requires i <= |walk|
    requires Pack(fs, src, walk[..i], fault).None?
    ensures Pack(fs, src, walk, fault).None?
    decreases |walk|
  {
    if i < |walk| {
      var n := |walk| - 1;
      assert walk[..n][..i] == walk[..i];
      PackFailureSticks(fs, src, walk[..n], fault, i);
    } else {
      assert walk[..i] == walk;
    }
  }

  /** A fault at any step of the walk aborts zipping. */
  lemma PackStepFault(fs: FileSystem, src: Path, walk: seq<Path>, i: nat)
    requires i < |walk|
    ensures Pack(fs, src, walk, StepFails(i)).None?
  {
  }

  function NodeOf(e: Entry): Node {
    match e
    case FileEntry(_, c) => File(c)
    case DirEntry(_) => Dir
  }

  /** The tree the entries describe, relative to the archive root; a later entry of the same name wins. */
  function Unpack(es: seq<Entry>): (m: map<Path, Node>)
    ensures forall e :: e in es ==> e.name in m
    decreases |es|
  {
    if es == [] then map[]
    else
      var n := |es| - 1;
      Unpack(es[..n])[es[n].name := NodeOf(es[n])]
  }

  /** A path under `src` is `src` followed by its relative part. */
  lemma Rebase(src: Path)
    ensures forall p :: IsPrefix(src, p) ==> src + p[|src|..] == p
  {
  }

  /** The paths of `ps` strictly under `src`, relative to `src`, with their nodes. */
  function Below(fs: FileSystem, src: Path, ps: set<Path>): (m: map<Path, Node>)
    ensures forall p :: p in ps && p in fs && IsPrefix(src, p) && p != src ==>
      p[|src|..] in m && m[p[|src|..]] == fs[p]
    ensures forall r :: r in m ==> r != [] && src + r in ps && src + r in fs && m[r] == fs[src + r]
  {
    Rebase(src);
    map p | p in ps && p in fs && IsPrefix(src, p) && p != src :: p[|src|..] := fs[p]
  }

  /** The tree under `src`, relative to `src`, without `src` itself. */
  function Subtree(fs: FileSystem, src: Path): map<Path, Node> {
    Below(fs, src, fs.Keys)
  }

  lemma BelowAdd(fs: FileSystem, src: Path, ps: set<Path>, p: Path)
    requires IsPrefix(src, p)
    ensures p in fs && p != src ==> Below(fs, src, ps + {p}) == Below(fs, src, ps)[p[|src|..] := fs[p]]
    ensures !(p in fs && p != src) ==> Below(fs, src, ps + {p}) == Below(fs, src, ps)
  {
  }

  function Elements(walk: seq<Path>): set<Path> {
    set q | q in walk
  }

  /** One more step of the walk adds that step's entry, if any, on top of the entries before it. */
  lemma UnpackPackStep(fs: FileSystem, src: Path, walk: seq<Path>)
    requires |walk| > 0 && Pack(fs, src, walk[..|walk| - 1], NoZipFault).Some?
    requires IsPrefix(src, walk[|walk| - 1])
    ensures var p := walk[|walk| - 1];
      var before := Unpack(Pack(fs, src, walk[..|walk| - 1], NoZipFault).value);
      && Pack(fs, src, walk, NoZipFault).Some?
      && Unpack(Pack(fs, src, walk, NoZipFault).value)
         == if p in fs && p != src then before[p[|src|..] := fs[p]] else before
  {
    var p := walk[|walk| - 1];
    var es := Pack(fs, src, walk[..|walk| - 1], NoZipFault).value;
    if p in fs && p != src {
      PackAppend(fs, src, walk);
      var e: Entry :| e.name == p[|src|..] && NodeOf(e) == fs[p] && Pack(fs, src, walk, NoZipFault).value == es + [e];
      assert (es + [e])[..|es|] == es;
    }
  }

  /** The entries of a walk that stays under `src` describe exactly the walked part of the tree. */
  lemma {:induction false} PackDescribesWalk(fs: FileSystem, src: Path, walk: seq<Path>)
    requires forall p :: p in walk ==> IsPrefix(src, p)
    ensures Pack(fs, src, walk, NoZipFault).Some?
    ensures Unpack(Pack(fs, src, walk, NoZipFault).value) == Below(fs, src, Elements(walk))
    decreases |walk|
  {
    if walk == [] {
      assert Elements(walk) == {};
    } else {
      var n := |walk| - 1;
      var p, init := walk[n], walk[..n];
      assert walk == init + [p];
      assert forall q :: q in init ==> q in walk;
      PackDescribesWalk(fs, src, init);
      assert Elements(walk) == Elements(init) + {p};
      BelowAdd(fs, src, Elements(init), p);
      UnpackPackStep(fs, src, walk);
    }
  }

  /** `Below` only looks at the paths of its set that lie under `src` in `fs`. */
  lemma BelowSameNodes(fs: FileSystem, src: Path, ps: set<Path>, qs: set<Path>)
    requires forall p :: p in fs && IsPrefix(src, p) ==> (p in ps <==> p in qs)
    ensures Below(fs, src, ps) == Below(fs, src, qs)
  {
  }

  /**
   * The round trip: when the walk visits the whole tree under `src` (the root
   * included), zipping succeeds and the entries unpack to exactly that tree,
   * files with their contents and every subdirectory, empty ones included.
   */
  lemma PackUnpackRoundTrip(fs: FileSystem, src: Path, walk: seq<Path>)
    requires forall p :: p in walk <==> p in fs && IsPrefix(src, p)
    ensures Pack(fs, src, walk, NoZipFault).Some?
    ensures Unpack(Pack(fs, src, walk, NoZipFault).value) == Subtree(fs, src)
  {
    PackDescribesWalk(fs, src, walk);
    BelowSameNodes(fs, src, Elements(walk), fs.Keys);
  }

  predicate Distinct<T(==)>(s: seq<T>) {
    forall i, j :: 0 <= i < j < |s| ==> s[i] != s[j]
  }

  /**
   * One entry per walked node: a walk without repeats, over existing paths
   * under `src`, yields one entry for every path but the root, each named by a
   * different non-empty relative path.
   */
  lemma {:induction false} PackOneEntryPerNode(fs: FileSystem, src: Path, walk: seq<Path>)
    requires Distinct(walk)
    requires forall p :: p in walk ==> p in fs && IsPrefix(src, p)
    ensures Pack(fs, src, walk, NoZipFault).Some?
    ensures var es := Pack(fs, src, walk, NoZipFault).value;
      && |es| == |walk| - (if src in walk then 1 else 0)
      && (forall i :: 0 <= i < |es| ==> es[i].name != [] && src + es[i].name in walk)
      && (forall i, j :: 0 <= i < j < |es| ==> es[i].name != es[j].name)
    decreases |walk|
  {
    if walk != [] {
      var n := |walk| - 1;
      var p, init := walk[n], walk[..n];
      assert walk == init + [p];
      assert forall q :: q in init ==> q in walk;
      PackOneEntryPerNode(fs, src, init);
      var es := Pack(fs, src, init, NoZipFault).value;
      PackAppend(fs, src, walk);
      assert p !in init;
      if p != src {
        Rebase(src);
        forall i | 0 <= i < |es| ensures es[i].name != p[|src|..] {
          assert src + es[i].name in init;
        }
      }
    }
  }

  /** A last walked path under `src` in `fs` adds one entry, named by its relative path, unless it is `src`. */
  lemma PackAppend(fs: FileSystem, src: Path, walk: seq<Path>)
    requires |walk| > 0 && Pack(fs, src, walk[..|walk| - 1], NoZipFault).Some?
    requires walk[|walk| - 1] in fs && IsPrefix(src, walk[|walk| - 1])
    ensures var p, es := walk[|walk| - 1], Pack(fs, src, walk[..|walk| - 1], NoZipFault).value;
      && Pack(fs, src, walk, NoZipFault).Some?
      && if p == src then Pack(fs, src, walk, NoZipFault).value == es
         else exists e: Entry :: e.name == p[|src|..] && NodeOf(e) == fs[p] && Pack(fs, src, walk, NoZipFault).value == es + [e]
  {
  }

  /**
   * `zip_directory(src, dst)` over the walk `walk`: the archive file is
   * created (truncated) first; a failure afterwards leaves it behind
   * unfinished; on success it holds the entries of the walk.
   */
  function ZipDirectoryEffect(fs: FileSystem, src: Path, dst: Path, walk: seq<Path>, fault: ZipFault): (r: (bool, FileSystem))
    ensures r.1 - {dst} == fs - {dst}
    ensures !CanCreate(fs, dst) || fault.CreateFails? ==> r == (false, fs)
    ensures r.0 <==> (CanCreate(fs, dst) && !fault.CreateFails? && !fault.FinishFails?
                      && Pack(fs[dst := File(Bytes([]))], src, walk, fault).Some?)
    ensures r.0 ==> dst in r.1 && r.1[dst] == File(Zip(Pack(fs[dst := File(Bytes([]))], src, walk, fault).value))
    ensures !r.0 && CanCreate(fs, dst) && !fault.CreateFails? ==> r.1 == fs[dst := File(Bytes([]))]
  {
    if fault.CreateFails? || !CanCreate(fs, dst) then (false, fs)
    else
      var created := fs[dst := File(Bytes([]))];
      match Pack(created, src, walk, fault)
      case None => (false, created)
      case Some(es) =>
        if fault.FinishFails? then (false, created)
        else (true, fs[dst := File(Zip(es))])
  }

  /** The tree `t` placed under the directory `dst`. */
  function Place(dst: Path, t: map<Path, Node>): (m: map<Path, Node>)
    ensures forall r :: r in t ==> dst + r in m && m[dst + r] == t[r]
    ensures forall q :: q in m ==> IsPrefix(dst, q) && q[|dst|..] in t
  {
    Rebase(dst);
    assert forall r :: (dst + r)[|dst|..] == r;
    map r | r in t :: dst + r := t[r]
  }

  /**
   * `unzip_file(src, dst)`, abstractly: it fails when the caller's fault
   * flag is set, or when `src` is not a file holding an archive. An archive
   * without entries is extracted without touching anything, since `extract`
   * only creates directories for the entries it writes; otherwise it fails
   * when `dst` cannot be created as a directory, and else `dst` is created
   * and every entry is written under it.
   */
  function UnzipFile(fs: FileSystem, src: Path, dst: Path, fails: bool): (r: Option<FileSystem>)
    ensures r.Some? <==>
      && !fails && IsFile(fs, src) && fs[src].content.Zip?
      && (fs[src].content.entries == [] || CreateDirAll(fs, dst).Some?)
    ensures r.Some? && fs[src].content.entries == [] ==> r.value == fs
  {
    if fails || !IsFile(fs, src) || !fs[src].content.Zip? then None
    else if fs[src].content.entries == [] then Some(fs)
    else match CreateDirAll(fs, dst)
      case None => None
      case Some(made) => Some(made + Place(dst, Unpack(fs[src].content.entries)))
  }

  /** Changing a path outside `src` leaves the tree under `src` as it is. */
  lemma SubtreeFrame(fs: FileSystem, src: Path, z: Path, n: Node)
    requires !IsPrefix(src, z)
    ensures Subtree(fs[z := n], src) == Subtree(fs, src)
  {
  }

  /**
   * Extracting the archive of a fully walked tree under `dst` writes exactly
   * that tree below `dst`, on top of the directories `create_dir_all(dst)`
   * made; an empty tree gives an archive without entries, which changes nothing.
   */
  lemma ExtractPackedTree(fs: FileSystem, src: Path, walk: seq<Path>, disk: FileSystem, zip: Path, dst: Path)
    requires forall p :: p in walk <==> p in fs && IsPrefix(src, p)
    requires Pack(fs, src, walk, NoZipFault).Some?
    requires disk.Keys >= {zip} && disk[zip] == File(Zip(Pack(fs, src, walk, NoZipFault).value))
    requires Pack(fs, src, walk, NoZipFault).value == [] || CreateDirAll(disk, dst).Some?
    ensures var base := if Pack(fs, src, walk, NoZipFault).value == [] then disk else CreateDirAll(disk, dst).value;
      UnzipFile(disk, zip, dst, false) == Some(base + Place(dst, Subtree(fs, src)))
  {
    PackUnpackRoundTrip(fs, src, walk);
    var es := Pack(fs, src, walk, NoZipFault).value;
    if es == [] {
      var placed := Place(dst, Subtree(fs, src));
      assert placed.Keys == {} by {
        assert Subtree(fs, src) == Unpack(es) == map[];
      }
      assert disk + placed == disk;
    }
  }
}
