/**
 * `FileSync::upload` as a function of the state it starts from: choosing the
 * payload (zipping a directory first), naming the key, reading the payload,
 * the put, and the local clean-up.
 */
module Outbound {
  import opened Wrappers
  import opened Paths
  import opened Files
  import opened Archive
  import opened SyncConfig

  /** Where the collaborators of `upload` fail: zipping, `File::open`, `read_to_end`, `put_object`. */
  datatype UploadFaults = UploadFaults(zip: ZipFault, open: bool, read: bool, put: bool)

  const NoUploadFaults := UploadFaults(NoZipFault, false, false, false)

  /**
   * The archive a directory is zipped into: the directory path with extension
   * "zip", a sibling named by the directory's stem and ".zip"; a path without
   * a file name is its own archive path.
   */
  function ZipPath(path: Path): (q: Path)
    ensures FileName(path).None? ==> q == path
    ensures FileName(path).Some? ==>
      && FileName(q).Some?
      && q[..|q| - 1] == path[..|path| - 1]
      && q[|q| - 1] == Stem(path[|path| - 1]) + ".zip"
      && SplitExtension(q[|q| - 1]) == (Stem(path[|path| - 1]), Some("zip"))
  {
    if FileName(path).Some? then
      var stem := Stem(path[|path| - 1]);
      DotBeforeExtension(stem, "zip");
      assert stem + "." + "zip" == stem + ".zip";
      WithExtension(path, "zip")
    else WithExtension(path, "zip")
  }

  /** The file that is uploaded: the archive for a directory, the path itself otherwise. */
  function Payload(fs: FileSystem, path: Path): (q: Path)
    ensures !IsDir(fs, path) ==> q == path
    ensures IsDir(fs, path) && FileName(path).Some? ==>
      && FileName(q).Some? && Extension(FileName(q).value) == Some("zip")
      && q[..|q| - 1] == path[..|path| - 1]
  {
    if IsDir(fs, path) then ZipPath(path) else path
  }

  /** The object key: the configured prefix followed by the payload's file name. */
  function UploadKey(cfg: FileSyncConfig, payload: Path): (key: string)
    requires FileName(payload).Some?
    ensures StartsWith(key, cfg.s3Prefix) && key[|cfg.s3Prefix|..] == FileName(payload).value
  {
    cfg.s3Prefix + FileName(payload).value
  }

  /**
   * Key naming: the key is the prefix followed by the path's own name for a
   * file, and by the name's stem and ".zip" for a directory, whose archive
   * name then has extension "zip". It depends only on the prefix, the path
   * and whether the path is a directory, so a retried upload reuses it.
   */
  lemma UploadKeyNaming(cfg: FileSyncConfig, fs: FileSystem, path: Path)
    requires FileName(path).Some?
    ensures FileName(Payload(fs, path)).Some?
    ensures var key := UploadKey(cfg, Payload(fs, path));
      var name := path[|path| - 1];
      && StartsWith(key, cfg.s3Prefix)
      && key == cfg.s3Prefix + (if IsDir(fs, path) then Stem(name) + ".zip" else name)
      && (IsDir(fs, path) ==> Extension(key[|cfg.s3Prefix|..]) == Some("zip"))
  {
  }

  /**
   * Lines 119-159 of `upload`: open and read the payload, put it under its key,
   * and remove the payload afterwards only when it is a generated archive.
   */
  function SendPayload(cfg: FileSyncConfig, st: Store, source: Path, generated: bool, faults: UploadFaults): (r: Outcome)
    requires FileName(source).Some?
    ensures r.code == 1 ==> r.store == st
    ensures r.code == 0 <==> !faults.open && !faults.read && !faults.put && IsFile(st.fs, source)
    ensures r.code == 0 ==> r.store.bucket == st.bucket[UploadKey(cfg, source) := st.fs[source].content]
    ensures r.code == 0 ==> r.store.fs == if generated then st.fs - {source} else st.fs
  {
    if faults.open || source !in st.fs then Outcome(1, st)
    else if faults.read || st.fs[source].Dir? then Outcome(1, st)
    else if faults.put then Outcome(1, st)
    else
      var bucket := st.bucket[UploadKey(cfg, source) := st.fs[source].content];
      Outcome(0, Store(if generated then st.fs - {source} else st.fs, bucket))
  }

  /** What zipping the directory `path` leaves on disk and whether it succeeded. */
  function Zipped(st: Store, path: Path, walk: seq<Path>, faults: UploadFaults): (bool, FileSystem) {
    ZipDirectoryEffect(st.fs, path, ZipPath(path), walk, faults.zip)
  }

  /** The entries of the archive made from `path`. */
  function ArchivedEntries(st: Store, path: Path, walk: seq<Path>, faults: UploadFaults): Option<seq<Entry>> {
    Pack(st.fs[ZipPath(path) := File(Bytes([]))], path, walk, faults.zip)
  }

  /**
   * Lines 107-117 and 119-159 of `upload` for a directory: zip it into its
   * archive path, send the archive, and remove the archive once it is stored.
   */
  function UploadDirectory(cfg: FileSyncConfig, st: Store, path: Path, walk: seq<Path>, faults: UploadFaults): (r: Outcome)
    requires IsDir(st.fs, path)
    ensures r.code == 0 || r.code == 1
    ensures r.code == 0 <==> !faults.open && !faults.read && !faults.put && Zipped(st, path, walk, faults).0
    ensures r.code == 1 ==> r.store == Store(Zipped(st, path, walk, faults).1, st.bucket)
    ensures r.code == 0 ==>
      && FileName(path).Some?
      && r.store.fs == st.fs - {ZipPath(path)}
      && ArchivedEntries(st, path, walk, faults).Some?
      && r.store.bucket == st.bucket[UploadKey(cfg, ZipPath(path)) := Zip(ArchivedEntries(st, path, walk, faults).value)]
  {
    var zipped := Zipped(st, path, walk, faults);
    if !zipped.0 then Outcome(1, Store(zipped.1, st.bucket))
    else
      ZippedArchive(st, path, walk, faults);
      SendPayload(cfg, Store(zipped.1, st.bucket), ZipPath(path), true, faults)
  }

  /** A directory that zipped successfully has a name, and its archive is a new file next to it holding the walk's entries. */
  lemma ZippedArchive(st: Store, path: Path, walk: seq<Path>, faults: UploadFaults)
    requires IsDir(st.fs, path) && Zipped(st, path, walk, faults).0
    ensures FileName(path).Some? && ZipPath(path) != path
    ensures ArchivedEntries(st, path, walk, faults).Some?
    ensures var zip, fs := ZipPath(path), Zipped(st, path, walk, faults).1;
      && fs == st.fs[zip := File(Zip(ArchivedEntries(st, path, walk, faults).value))]
      && fs - {zip} == st.fs - {zip}
  {
  }

  /**
   * `upload(path)`: 1 with the bucket unchanged when zipping, opening,
   * reading or the put fails; 0 exactly when all of them succeed. A plain file
   * stays where it is; for a directory only the generated archive is removed
   * and the directory stays. When a directory upload fails, whatever zipping
   * left (the finished archive after a failed put) stays on disk.
   */
  function UploadEffect(cfg: FileSyncConfig, st: Store, path: Path, walk: seq<Path>, faults: UploadFaults): (r: Outcome)
    requires IsDir(st.fs, path) || FileName(path).Some?
    ensures r.code == 0 || r.code == 1
    ensures r.code == 0 <==>
      && !faults.open && !faults.read && !faults.put
      && if IsDir(st.fs, path) then Zipped(st, path, walk, faults).0 else IsFile(st.fs, path)
    ensures r.code == 1 ==> r.store.bucket == st.bucket
    ensures r.code == 1 && !IsDir(st.fs, path) ==> r.store == st
    ensures r.code == 1 && IsDir(st.fs, path) ==> r.store.fs == Zipped(st, path, walk, faults).1
    ensures r.code == 0 && !IsDir(st.fs, path) ==>
      IsFile(st.fs, path) && r.store == Store(st.fs, st.bucket[UploadKey(cfg, path) := st.fs[path].content])
    ensures r.code == 0 && IsDir(st.fs, path) ==>
      && FileName(path).Some?
      && r.store.fs == st.fs - {ZipPath(path)}
      && IsDir(r.store.fs, path)
      && ArchivedEntries(st, path, walk, faults).Some?
      && r.store.bucket == st.bucket[UploadKey(cfg, ZipPath(path)) := Zip(ArchivedEntries(st, path, walk, faults).value)]
  {
    if IsDir(st.fs, path) then
      DirectoryKept(cfg, st, path, walk, faults);
      UploadDirectory(cfg, st, path, walk, faults)
    else SendPayload(cfg, st, path, false, faults)
  }

  /** A directory upload removes the archive only, so the directory itself stays. */
  lemma DirectoryKept(cfg: FileSyncConfig, st: Store, path: Path, walk: seq<Path>, faults: UploadFaults)
    requires IsDir(st.fs, path)
    ensures var r := UploadDirectory(cfg, st, path, walk, faults);
      r.code == 0 ==> ZipPath(path) != path && IsDir(r.store.fs, path)
  {
  }

  /**
   * A directory uploaded without faults, whose walk visits its whole tree,
   * lands in the bucket as an archive that unpacks to exactly that tree.
   */
  lemma UploadedDirectoryRoundTrip(cfg: FileSyncConfig, st: Store, path: Path, walk: seq<Path>)
    requires IsDir(st.fs, path) && CanCreate(st.fs, ZipPath(path))
    requires forall p :: p in walk <==> p in st.fs && IsPrefix(path, p)
    ensures var r := UploadEffect(cfg, st, path, walk, NoUploadFaults);
      && r.code == 0
      && UploadKey(cfg, ZipPath(path)) in r.store.bucket
      && r.store.bucket[UploadKey(cfg, ZipPath(path))].Zip?
      && Unpack(r.store.bucket[UploadKey(cfg, ZipPath(path))].entries) == Subtree(st.fs, path)
  {
    var zip := ZipPath(path);
    assert zip != path && |zip| == |path| && zip == zip[..|path|];
    var fs1 := st.fs[zip := File(Bytes([]))];
    assert forall p :: p in walk <==> p in fs1 && IsPrefix(path, p);
    PackUnpackRoundTrip(fs1, path, walk);
    SubtreeFrame(st.fs, path, zip, File(Bytes([])));
  }
}
