/**
 * `FileSync::download` as a function of the state it starts from: create the
 * destination, list the bucket, and for every listed key outside the
 * outbound prefix get, write, delete and, for a zip, extract and remove.
 */
module Inbound {
  import opened Wrappers
  import opened Paths
  import opened Files
  import opened Archive
  import opened SyncConfig
  import opened Outbound

  /** Where the calls made for one listed object fail. */
  datatype ObjectFaults = ObjectFaults(get: bool, collect: bool, write: bool, delete: bool, unzip: bool)

  const NoObjectFaults := ObjectFaults(false, false, false, false, false)

  /** The faults for the object at listing position `i`; positions past `faults` see none. */
  function FaultAt(faults: seq<ObjectFaults>, i: nat): ObjectFaults {
    if i < |faults| then faults[i] else NoObjectFaults
  }

  /**
   * The answer of `list_objects_v2`: an error, a reply without contents, or
   * the listed objects in listing order, each with its key if it has one.
   */
  datatype Listing = ListFailed | NoContents | Contents(objects: seq<Option<string>>)

  /** The filter of line 180: a key is downloaded only when it does NOT start with the outbound prefix. */
  predicate IsInbound(cfg: FileSyncConfig, key: string) {
    !StartsWith(key, cfg.s3Prefix)
  }

  function Destination(cfg: FileSyncConfig): Path {
    ParsePath(cfg.destinationPath)
  }

  /**
   * Where an object is written: the destination joined with its full key. A
   * relative key stays under the destination, and a key whose last segment is
   * a name gives the written file that name.
   */
  function LocalPath(cfg: FileSyncConfig, key: string): (p: Path)
    ensures forall i :: 0 <= i < |p| ==> IsComponent(p[i])
    ensures !(|key| > 0 && key[0] == '/') ==> IsPrefix(Destination(cfg), p)
    ensures IsComponent(LastSegment(key)) && LastSegment(key) != ".." ==> FileName(p) == Some(LastSegment(key))
  {
    if IsComponent(LastSegment(key)) then
      ParseLastSegment(key);
      Join(Destination(cfg), key)
    else Join(Destination(cfg), key)
  }

  /** The full key is kept: a key that is a single name is written directly under the destination under that name. */
  lemma LocalPathKeepsFullKey(cfg: FileSyncConfig, key: string)
    requires IsComponent(key)
    ensures LocalPath(cfg, key) == Destination(cfg) + [key]
  {
    ParseSingleComponent(key);
  }

  /**
   * The test of line 231: the path's extension is "zip", that is, its file
   * name is a non-empty stem followed by ".zip".
   */
  predicate IsZipPath(p: Path): (b: bool)
    ensures b <==> FileName(p).Some? && |FileName(p).value| > 4 && FileName(p).value[|FileName(p).value| - 4..] == ".zip"
  {
    if FileName(p).None? then false
    else
      ExtensionSuffix(FileName(p).value, "zip");
      Extension(FileName(p).value) == Some("zip")
  }

  /**
   * The directory an archive is extracted into: the destination joined with
   * the archive's file stem, which is the destination itself for the stem ".".
   * A stem ".." stays a literal component, as ".." does everywhere in a path.
   */
  function ExtractDir(cfg: FileSyncConfig, p: Path): (d: Path)
    requires IsZipPath(p) && '/' !in FileName(p).value
    ensures Stem(FileName(p).value) != "." ==> d == Destination(cfg) + [Stem(FileName(p).value)]
    ensures Stem(FileName(p).value) == "." ==> d == Destination(cfg)
  {
    var stem := Stem(FileName(p).value);
    assert forall c :: c in stem ==> c in FileName(p).value;
    ParseFromPlain(stem, "");
    assert "" + stem == stem;
    Join(Destination(cfg), stem)
  }

  /**
   * The key's last segment names a file. A key that is empty or ends in '/',
   * "/." or "/.." (or is "." or "..") names a directory, on which `fs::write` fails.
   */
  predicate NamesFile(key: string): (b: bool)
    ensures !b <==>
      || key == "" || key[|key| - 1] == '/'
      || key == "." || (|key| >= 2 && key[|key| - 2] == '/' && key[|key| - 1] == '.')
      || key == ".." || (|key| >= 3 && key[|key| - 3] == '/' && key[|key| - 2] == '.' && key[|key| - 1] == '.')
  {
    LastSegmentName(key);
    IsComponent(LastSegment(key)) && LastSegment(key) != ".."
  }

  /** `fs::write(p, ..)` for the key `key` succeeds. */
  predicate CanWrite(fs: FileSystem, p: Path, key: string) {
    CanCreate(fs, p) && NamesFile(key)
  }

  /** After one object the loop goes on, or it stops with `return 1`. */
  datatype Step = Next(store: Store) | Stop(store: Store)

  /**
   * One iteration of the loop of lines 178-245. Keyless and outbound keys are
   * passed over untouched. A failed get (or a key no longer in the bucket),
   * body collection or write leaves everything as it was; a failed delete
   * leaves the written file. The remote copy is deleted only after the write
   * succeeded. A zip is extracted after the delete; when extraction fails the
   * loop stops with the archive on disk and no remote copy left.
   */
  function ObjectStep(cfg: FileSyncConfig, st: Store, listed: Option<string>, f: ObjectFaults): (r: Step)
    ensures listed.None? || !IsInbound(cfg, listed.value) ==> r == Next(st)
    ensures f.get || f.collect || f.write ==> r == Next(st)
    ensures listed.Some? && (listed.value !in st.bucket || !CanWrite(st.fs, LocalPath(cfg, listed.value), listed.value)) ==>
      r == Next(st)
    ensures r.store.bucket == st.bucket
         || (listed.Some? && IsInbound(cfg, listed.value) && listed.value in st.bucket
             && r.store.bucket == st.bucket - {listed.value})
    ensures listed.Some? && listed.value in st.bucket && listed.value !in r.store.bucket ==>
      !f.write && !f.delete && CanWrite(st.fs, LocalPath(cfg, listed.value), listed.value)
    ensures (&& listed.Some? && IsInbound(cfg, listed.value) && listed.value in st.bucket
             && !f.get && !f.collect && !f.write && CanWrite(st.fs, LocalPath(cfg, listed.value), listed.value)) ==>
      var key, local := listed.value, LocalPath(cfg, listed.value);
      var written := st.fs[local := File(st.bucket[key])];
      && FileName(local) == Some(LastSegment(key))
      && (f.delete ==> r == Next(Store(written, st.bucket)))
      && (!f.delete && !IsZipPath(local) ==> r == Next(Store(written, st.bucket - {key})))
      && (!f.delete && IsZipPath(local) ==>
            var extracted := UnzipFile(written, local, ExtractDir(cfg, local), f.unzip);
            r == if extracted.Some? then Next(Store(extracted.value - {local}, st.bucket - {key}))
                 else Stop(Store(written, st.bucket - {key})))
    ensures r.Stop? ==>
      var key, local := listed.value, LocalPath(cfg, listed.value);
      && listed.Some? && IsInbound(cfg, key) && IsZipPath(local)
      && key in st.bucket && r.store.bucket == st.bucket - {key}
      && r.store.fs == st.fs[local := File(st.bucket[key])]
      && UnzipFile(r.store.fs, local, ExtractDir(cfg, local), f.unzip).None?
  {
    if listed.None? then Next(st)
    else
      var key := listed.value;
      if !IsInbound(cfg, key) then Next(st)
      else if f.get || key !in st.bucket then Next(st)
      else if f.collect then Next(st)
      else
        var local := LocalPath(cfg, key);
        if f.write || !CanWrite(st.fs, local, key) then Next(st)
        else
          var written := st.fs[local := File(st.bucket[key])];
          if f.delete then Next(Store(written, st.bucket))
          else
            var bucket := st.bucket - {key};
            if !IsZipPath(local) then Next(Store(written, bucket))
            else match UnzipFile(written, local, ExtractDir(cfg, local), f.unzip)
              case None => Stop(Store(written, bucket))
              case Some(extracted) => Next(Store(extracted - {local}, bucket))
  }

  /** The state after the loop has seen `objects`, and whether it stopped early. */
  datatype RunResult = RunResult(store: Store, stopped: bool)

  /**
   * The loop over the listing. Only keys that are listed and inbound can
   * leave the bucket, nothing is added to it, and no other object changes.
   */
  function Run(cfg: FileSyncConfig, st: Store, objects: seq<Option<string>>, faults: seq<ObjectFaults>): (r: RunResult)
    ensures r.store.bucket.Keys <= st.bucket.Keys
    ensures forall k :: k in r.store.bucket ==> r.store.bucket[k] == st.bucket[k]
    ensures forall k :: k in st.bucket && k !in r.store.bucket ==> IsInbound(cfg, k) && Some(k) in objects
    decreases |objects|
  {
    if objects == [] then RunResult(st, false)
    else
      var n := |objects| - 1;
      var prev := Run(cfg, st, objects[..n], faults);
      assert forall o :: o in objects[..n] ==> o in objects;
      if prev.stopped then prev
      else match ObjectStep(cfg, prev.store, objects[n], FaultAt(faults, n))
        case Next(s) => RunResult(s, false)
        case Stop(s) => RunResult(s, true)
  }

  /** Outbound keys, and keys not listed, keep their objects. */
  lemma RunKeepsOutboundObjects(cfg: FileSyncConfig, st: Store, objects: seq<Option<string>>, faults: seq<ObjectFaults>, k: string)
    requires k in st.bucket && (!IsInbound(cfg, k) || Some(k) !in objects)
    ensures var r := Run(cfg, st, objects, faults); k in r.store.bucket && r.store.bucket[k] == st.bucket[k]
  {
  }

  /** After the loop stopped, the objects listed later are left unprocessed: the outcome is that of the prefix. */
  lemma {:induction false} RunStopSticks(cfg: FileSyncConfig, st: Store, objects: seq<Option<string>>, faults: seq<ObjectFaults>, i: nat)
    requires i <= |objects|
    requires Run(cfg, st, objects[..i], faults).stopped
    ensures Run(cfg, st, objects, faults) == Run(cfg, st, objects[..i], faults)
    decreases |objects|
  {
    if i < |objects| {
      var n := |objects| - 1;
      assert objects[..n][..i] == objects[..i];
      RunStopSticks(cfg, st, objects[..n], faults, i);
    } else {
      assert objects[..i] == objects;
    }
  }

  /** The loop reaches position `j` and stops there. */
  predicate StopsAt(cfg: FileSyncConfig, st: Store, objects: seq<Option<string>>, faults: seq<ObjectFaults>, j: nat)
    requires j < |objects|
  {
    !Run(cfg, st, objects[..j], faults).stopped && Run(cfg, st, objects[..j + 1], faults).stopped
  }

  /**
   * The loop stops only at some position that it reaches without having
   * stopped before, and the step of the object there stops: its archive was
   * written and deleted remotely, and extracting it failed.
   */
  lemma RunStopCause(cfg: FileSyncConfig, st: Store, objects: seq<Option<string>>, faults: seq<ObjectFaults>)
    requires Run(cfg, st, objects, faults).stopped
    ensures exists j ::
      && 0 <= j < |objects| && StopsAt(cfg, st, objects, faults, j)
      && ObjectStep(cfg, Run(cfg, st, objects[..j], faults).store, objects[j], FaultAt(faults, j)).Stop?
  {
    var j := FirstStop(cfg, st, objects, faults);
    StopIsFailedExtraction(cfg, st, objects, faults, j);
  }

  /** A position at which the loop stops. */
  lemma {:induction false} FirstStop(cfg: FileSyncConfig, st: Store, objects: seq<Option<string>>, faults: seq<ObjectFaults>)
    returns (j: nat)
    requires Run(cfg, st, objects, faults).stopped
    ensures j < |objects| && StopsAt(cfg, st, objects, faults, j)
    decreases |objects|
  {
    var n := |objects| - 1;
    assert objects[..n + 1] == objects;
    if Run(cfg, st, objects[..n], faults).stopped {
      j := FirstStop(cfg, st, objects[..n], faults);
      assert objects[..n][..j] == objects[..j];
      assert objects[..n][..j + 1] == objects[..j + 1];
    } else {
      j := n;
    }
  }

  /**
   * Where the loop stops, the step of that object stopped: its archive was
   * written and deleted remotely, and extracting it failed.
   */
  lemma StopIsFailedExtraction(cfg: FileSyncConfig, st: Store, objects: seq<Option<string>>, faults: seq<ObjectFaults>, j: nat)
    requires j < |objects| && StopsAt(cfg, st, objects, faults, j)
    ensures var r := ObjectStep(cfg, Run(cfg, st, objects[..j], faults).store, objects[j], FaultAt(faults, j));
      && r.Stop? && objects[j].Some?
      && var local := LocalPath(cfg, objects[j].value);
      && IsZipPath(local)
      && UnzipFile(r.store.fs, local, ExtractDir(cfg, local), FaultAt(faults, j).unzip).None?
  {
    assert objects[..j + 1][..j] == objects[..j];
  }

  /**
   * `download()`: 1 when the destination cannot be created (nothing else
   * happens) or when the loop stopped at a failed extraction; 0 otherwise,
   * in particular after a failed or empty listing, which leave the bucket as it was.
   */
  function DownloadEffect(cfg: FileSyncConfig, st: Store, destFails: bool, listing: Listing, faults: seq<ObjectFaults>): (r: Outcome)
    ensures r.code == 0 || r.code == 1
    ensures r.code == 1 <==>
      || destFails
      || CreateDirAll(st.fs, Destination(cfg)).None?
      || (listing.Contents? && Run(cfg, Store(CreateDirAll(st.fs, Destination(cfg)).value, st.bucket), listing.objects, faults).stopped)
    ensures destFails || CreateDirAll(st.fs, Destination(cfg)).None? ==> r.store == st
    ensures !listing.Contents? ==> r.store.bucket == st.bucket
    ensures !destFails && CreateDirAll(st.fs, Destination(cfg)).Some? ==>
      var ready := Store(CreateDirAll(st.fs, Destination(cfg)).value, st.bucket);
      r.store == if listing.Contents? then Run(cfg, ready, listing.objects, faults).store else ready
    ensures r.store.bucket.Keys <= st.bucket.Keys
    ensures forall k :: k in st.bucket && !IsInbound(cfg, k) ==> k in r.store.bucket && r.store.bucket[k] == st.bucket[k]
  {
    var made := if destFails then None else CreateDirAll(st.fs, Destination(cfg));
    if made.None? then Outcome(1, st)
    else
      var ready := Store(made.value, st.bucket);
      match listing
      case Contents(objects) =>
        var run := Run(cfg, ready, objects, faults);
        Outcome(if run.stopped then 1 else 0, run.store)
      case _ => Outcome(0, ready)
  }

  /**
   * A listed archive of a fully walked tree, downloaded without faults, is
   * written, deleted remotely, extracted into its directory under the
   * destination and removed locally: the tree appears under that directory.
   * The loop stops only when that directory cannot be created.
   */
  lemma DownloadExtractsArchive(cfg: FileSyncConfig, st: Store, key: string, tree: FileSystem, src: Path, walk: seq<Path>)
    requires forall p :: p in walk <==> p in tree && IsPrefix(src, p)
    requires Pack(tree, src, walk, NoZipFault).Some?
    requires IsInbound(cfg, key) && key in st.bucket && st.bucket[key] == Zip(Pack(tree, src, walk, NoZipFault).value)
    requires CanWrite(st.fs, LocalPath(cfg, key), key) && IsZipPath(LocalPath(cfg, key))
    ensures var local, empty := LocalPath(cfg, key), Pack(tree, src, walk, NoZipFault).value == [];
      var dir, written := ExtractDir(cfg, local), st.fs[local := File(st.bucket[key])];
      ObjectStep(cfg, st, Some(key), NoObjectFaults)
        == if empty || CreateDirAll(written, dir).Some?
           then
             var base := if empty then written else CreateDirAll(written, dir).value;
             Next(Store((base + Place(dir, Subtree(tree, src))) - {local}, st.bucket - {key}))
           else Stop(Store(written, st.bucket - {key}))
  {
    var local := LocalPath(cfg, key);
    var written := st.fs[local := File(st.bucket[key])];
    if Pack(tree, src, walk, NoZipFault).value == [] || CreateDirAll(written, ExtractDir(cfg, local)).Some? {
      ExtractPackedTree(tree, src, walk, written, local, ExtractDir(cfg, local));
    }
  }

  /** A key naming a directory (empty, or ending in '/', "/." or "/..") is never written, so its object stays in the bucket. */
  lemma DirectoryKeyKept(cfg: FileSyncConfig, st: Store, key: string, f: ObjectFaults)
    requires !NamesFile(key)
    ensures ObjectStep(cfg, st, Some(key), f) == Next(st)
  {
  }

  /**
   * Prefix isolation: whatever `upload` puts is named under the outbound
   * prefix, so `download` with the same configuration passes it over.
   */
  lemma UploadedKeyNotDownloaded(cfg: FileSyncConfig, fs: FileSystem, path: Path, st: Store, f: ObjectFaults)
    requires FileName(path).Some?
    ensures FileName(Payload(fs, path)).Some?
    ensures ObjectStep(cfg, st, Some(UploadKey(cfg, Payload(fs, path))), f) == Next(st)
  {
  }
}
