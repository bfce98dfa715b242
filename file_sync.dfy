/**
 * `FileSync` acting on the local filesystem and the bucket: the two maps are
 * the state its methods change step by step, as the Rust code does through
 * `std::fs` and the object store client.
 */
module Sync {
  import opened Wrappers
  import opened Paths
  import opened Files
  import opened Archive
  import opened SyncConfig
  import opened Outbound
  import opened Inbound

  class FileSync {
    const config: FileSyncConfig
    var fs: FileSystem
    var bucket: Bucket

    /** A sync engine with its configuration, over a given filesystem and bucket. */
    constructor (config: FileSyncConfig, fs: FileSystem, bucket: Bucket)
      ensures this.config == config && this.fs == fs && this.bucket == bucket
    {
      this.config := config;
      this.fs := fs;
      this.bucket := bucket;
    }

    function State(): Store
      reads this
    {
      Store(fs, bucket)
    }

    /**
     * `zip_directory(src, dst)`: create the archive file, add one entry per
     * walked path under `src` (the root itself skipped), then finish it.
     */
    method ZipDirectory(src: Path, dst: Path, walk: seq<Path>, fault: ZipFault) returns (ok: bool)
      modifies this
      ensures (ok, fs) == ZipDirectoryEffect(old(fs), src, dst, walk, fault)
      ensures bucket == old(bucket)
    {
      if fault.CreateFails? || !CanCreate(fs, dst) {
        return false;
      }
      fs := fs[dst := File(Bytes([]))];
      ghost var created := fs;
      var entries: seq<Entry> := [];
      for i := 0 to |walk|
        invariant fs == created && bucket == old(bucket)
        invariant Pack(created, src, walk[..i], fault) == Some(entries)
      {
        assert walk[..i + 1][..i] == walk[..i];
        if fault == StepFails(i) {
          PackFailureSticks(created, src, walk, fault, i + 1);
          return false;
        }
        var path := walk[i];
        if path == src {
          continue;
        }
        if !IsPrefix(src, path) {
          PackFailureSticks(created, src, walk, fault, i + 1);
          return false;
        }
        var relative := path[|src|..];
        if IsFile(fs, path) {
          entries := entries + [FileEntry(relative, fs[path].content)];
        } else if IsDir(fs, path) {
          entries := entries + [DirEntry(relative)];
        }
      }
      assert walk[..|walk|] == walk;
      if fault.FinishFails? {
        return false;
      }
      assert created == old(fs)[dst := File(Bytes([]))];
      fs := fs[dst := File(Zip(entries))];
      ok := true;
      assert fs == old(fs)[dst := File(Zip(entries))];
      assert (ok, fs) == ZipDirectoryEffect(old(fs), src, dst, walk, fault);
    }

    /**
     * `upload(path)`: zip a directory first, name the key after the payload,
     * read the payload, put it, and remove the payload if it was generated.
     */
    method Upload(path: Path, walk: seq<Path>, faults: UploadFaults) returns (code: int)
      requires IsDir(fs, path) || FileName(path).Some?
      modifies this
      ensures Outcome(code, State()) == UploadEffect(config, old(State()), path, walk, faults)
    {
      var sourcePath := path;
      var isDir := false;
      if IsDir(fs, path) {
        isDir := true;
        var zipPath := ZipPath(path);
        var zipped := ZipDirectory(path, zipPath, walk, faults.zip);
        if !zipped {
          return 1;
        }
        sourcePath := zipPath;
      }
      var key := UploadKey(config, sourcePath);
      if faults.open || sourcePath !in fs {
        return 1;
      }
      if faults.read || fs[sourcePath].Dir? {
        return 1;
      }
      var buffer := fs[sourcePath].content;
      if faults.put {
        return 1;
      }
      bucket := bucket[key := buffer];
      if isDir {
        fs := fs - {sourcePath};
      }
      return 0;
    }

    /**
     * The body of the loop of `download()` for the object listed as `listed`:
     * every failure but a failed extraction ends it with `continue` (false);
     * a failed extraction ends it with `return 1` (true).
     */
    method DownloadObject(listed: Option<string>, f: ObjectFaults) returns (stop: bool)
      modifies this
      ensures ObjectStep(config, old(State()), listed, f) == (if stop then Stop(State()) else Next(State()))
    {
      if listed.None? {
        return false;
      }
      var key := listed.value;
      if !IsInbound(config, key) {
        return false;
      }
      if f.get || key !in bucket {
        return false;
      }
      var body := bucket[key];
      if f.collect {
        return false;
      }
      var localPath := LocalPath(config, key);
      if f.write || !CanWrite(fs, localPath, key) {
        return false;
      }
      fs := fs[localPath := File(body)];
      if f.delete {
        return false;
      }
      bucket := bucket - {key};
      if IsZipPath(localPath) {
        var extracted := UnzipFile(fs, localPath, ExtractDir(config, localPath), f.unzip);
        if extracted.None? {
          return true;
        }
        fs := extracted.value - {localPath};
      }
      return false;
    }

    /**
     * `download()`: create the destination, then walk the listing, stopping
     * early only when an extraction failed.
     */
    method Download(destFails: bool, listing: Listing, faults: seq<ObjectFaults>) returns (code: int)
      modifies this
      ensures Outcome(code, State()) == DownloadEffect(config, old(State()), destFails, listing, faults)
    {
      var made: Option<FileSystem> := if destFails then None else CreateDirAll(fs, Destination(config));
      if made.None? {
        return 1;
      }
      fs := made.value;
      if !listing.Contents? {
        return 0;
      }
      var stopped := DownloadObjects(listing.objects, faults);
      return if stopped then 1 else 0;
    }

    /**
     * The loop of lines 176-246 over the listed objects: each object in
     * turn, until one of them stops the loop with `return 1`.
     */
    method DownloadObjects(objects: seq<Option<string>>, faults: seq<ObjectFaults>) returns (stopped: bool)
      modifies this
      ensures Run(config, old(State()), objects, faults) == RunResult(State(), stopped)
    {
      ghost var ready := State();
      for i := 0 to |objects|
        invariant Run(config, ready, objects[..i], faults) == RunResult(State(), false)
      {
        assert objects[..i + 1][..i] == objects[..i];
        var stop := DownloadObject(objects[i], FaultAt(faults, i));
        if stop {
          RunStopSticks(config, ready, objects, faults, i + 1);
          return true;
        }
      }
      assert objects[..|objects|] == objects;
      return false;
    }
  }
}
