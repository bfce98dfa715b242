# pika file sync, modelled in Dafny

This project models the transfer protocol of `src/file_sync.rs`. It moves
files between a local directory tree and one object-store bucket:

- `upload(path)` zips a directory first (the archive is `path` with extension
  `zip`). It stores the payload under the key `s3_prefix` + payload file name,
  and afterwards removes the generated archive only.
- `download()` creates `destination_path` and lists the bucket. For every
  listed key that does **not** start with `s3_prefix`, it runs get, write to
  `destination_path` joined with the full key, and delete. For a `.zip` key it
  then extracts into `destination_path/<file stem>` and removes the local archive.
- `zip_directory` turns a tree into entries named by relative path.
  `unzip_file` is modelled as an abstract extraction of those entries.

The three collaborators are abstracted:

- **Filesystem:** a map from path to `File(content) | Dir`. A path is the
  sequence of its components, read from the root.
- **Bucket:** a map from key to content. The listing is a parameter, in listing order.
- **Zip library:** an archive is the list of its entries (`Content.Zip`).
  Any other file content is raw bytes.

Every external call takes a fault flag supplied by the caller, so every
error branch can be reached. `Sync.FileSync` holds the filesystem and the
bucket. Its methods `ZipDirectory`, `Upload`, `DownloadObject`, `DownloadObjects` and `Download`
change them step by step. Each method is proved equal to a specification
function (`ZipDirectoryEffect`, `UploadEffect`, `ObjectStep`, `Run`, `DownloadEffect`).
The properties are proved about those functions.

The model follows the code as written:

- After a successful upload, a plain file stays on disk. Only a generated archive is removed.
- Inbound keys are those that do not start with `s3_prefix`. The full key is joined to the destination as it is.
- An archive is extracted into the destination joined with its file stem, wherever the key put the archive itself.
- A failed extraction ends `download` with 1. It happens after the remote copy was deleted, so the archive stays on disk with no remote copy.
- `upload` and `download` each do one pass per call; any repetition belongs to their caller.

Modules: `Wrappers` (Option), `Paths`, `Files` (filesystem), `Archive`,
`SyncConfig`, `Outbound` (upload), `Inbound` (download), `Sync` (the class).

## Model

| member | source | states |
|---|---|---|
| Paths.ParsePath | src/file_sync.rs:163 | every component of a configured path is a non-empty name without '/' that is not "." |
| Paths.ParseFromPlain | src/file_sync.rs:198-199 | text without '/' is read as the single component it spells (none for "" and ".") |
| Paths.ParseSingleComponent | src/file_sync.rs:198-199 | a key that is a single name parses to exactly that name |
| Paths.ParseConcat | src/file_sync.rs:198-199 | a '/' separates components: the path of `x/b` is the path of `x` followed by the path of `b` |
| Paths.ParseFirstSegment | src/file_sync.rs:198-199 | the first segment of `a/b` becomes the first component, or none when it is "" or "."; the rest is the path of `b` |
| Paths.LastSegment | src/file_sync.rs:198-199 | the last segment of a key is its longest suffix without '/', preceded by '/' unless it is the whole key |
| Paths.ParseLastSegment | src/file_sync.rs:198-199 | when the last segment of a key is a name, it is the last component of the key's path |
| Paths.JoinNested | src/file_sync.rs:198-199 | joining `a/k` to a base, for a relative name `a`, is joining `a` and then the components of `k` |
| Paths.LastIndex | src/file_sync.rs:231 | the index of the last occurrence of a character (the '.' of an extension, the '/' before a key's last segment): that character with none after it, none exactly when the text lacks it |
| Paths.ExtensionSuffix | src/file_sync.rs:231 | a name has a given dot-free extension exactly when it ends in "." and that extension after a non-empty stem |
| Paths.LastSegmentName | src/file_sync.rs:198-209 | the last segment of a key is a name other than ".." exactly when the key is not empty, does not end in '/', and is not and does not end in "/." or "/.." |
| Paths.SplitExtension | src/file_sync.rs:231-235 | a name with an extension is stem + "." + extension, with a non-empty stem and a dot-free extension; ".." and names whose only dot is the first character have none |
| Paths.WithExtension | src/file_sync.rs:109 | replacing the extension keeps every component but the last, and the path is unchanged when it has no file name |
| Paths.DotBeforeExtension | src/file_sync.rs:231-235 | stem + "." + extension splits back into that stem and extension when the extension has no dot |
| Files.CanCreate | src/file_sync.rs:47 | `File::create` succeeds when the path has a parent directory and is not itself a directory |
| Files.CreateDirAll | src/file_sync.rs:164-167 | create_dir_all fails exactly when a prefix of the path is a file; otherwise every prefix becomes a directory and nothing else changes |
| Archive.Pack | src/file_sync.rs:55-76 | zipping a walk yields at most one entry per walked path, and each entry names a walked path under the root that exists |
| Archive.PackSucceeds | src/file_sync.rs:55-76 | zipping the walk succeeds exactly when no step fails and every walked path lies under the root, so strip_prefix never fails |
| Archive.PackAppend | src/file_sync.rs:59-75 | an existing walked path adds one entry named by its path relative to the root and holding its node, except the root itself, which adds none |
| Archive.Unpack | src/file_sync.rs:33 | every entry of the archive is extracted under its name |
| Archive.PackFailureSticks | src/file_sync.rs:55-78 | once a step of the walk has failed, zipping fails whatever follows |
| Archive.PackStepFault | src/file_sync.rs:56-71 | a failure at any step of the walk aborts the whole operation |
| Archive.PackDescribesWalk | src/file_sync.rs:55-76 | the entries of a walk under the root unpack to exactly the walked nodes, relative to the root |
| Archive.PackUnpackRoundTrip | src/file_sync.rs:41-80 | when the walk visits the whole tree, the entries unpack to exactly the tree under the root, root excluded, empty directories included |
| Archive.PackOneEntryPerNode | src/file_sync.rs:59-75 | a repeat-free walk gives one entry per node other than the root, with pairwise different non-empty names |
| Archive.ZipDirectoryEffect | src/file_sync.rs:41-80 | only the archive path changes; creation failure changes nothing; a later failure leaves an unfinished archive; success stores the walk's entries |
| Archive.SubtreeFrame | src/file_sync.rs:47 | creating a file outside the directory leaves the tree under the directory unchanged |
| Archive.Place | src/file_sync.rs:33 | every node of a tree appears under the target directory, and only those |
| Archive.UnzipFile | src/file_sync.rs:23-39 | extraction succeeds exactly when no fault occurs, the source is a file holding an archive, and either the archive has no entries or the target directory can be created; an archive without entries changes nothing |
| Archive.ExtractPackedTree | src/file_sync.rs:30-33 | extracting the archive of a fully walked tree writes exactly that tree under the target directory, on top of the directories created for it; the archive of an empty tree changes nothing |
| Outbound.UploadKeyNaming | src/file_sync.rs:107-120 | the key is s3_prefix + file name; for a directory, s3_prefix + stem + ".zip" with extension "zip" |
| Outbound.ZipPath | src/file_sync.rs:109 | the archive of a named directory is a sibling named stem + ".zip", whose extension is "zip"; a path without a file name is its own archive path |
| Outbound.Payload | src/file_sync.rs:104-117 | a path that is not a directory is uploaded itself; a named directory is uploaded as its sibling archive, whose extension is "zip" |
| Outbound.UploadKey | src/file_sync.rs:119-120 | the key starts with s3_prefix and the rest of it is the payload's file name |
| Outbound.ZippedArchive | src/file_sync.rs:107-116 | a directory that zipped successfully has a file name, and its archive is a new file next to it holding the walk's entries, nothing else changed |
| Outbound.UploadDirectory | src/file_sync.rs:107-159 | for a directory: 0 exactly when zipping, open, read and put succeed; 1 leaves what zipping left and the bucket unchanged; 0 stores the archive's entries under the key and removes only the archive |
| Outbound.DirectoryKept | src/file_sync.rs:151-153 | a successful directory upload removes only the archive, which differs from the directory, so the directory stays |
| Outbound.SendPayload | src/file_sync.rs:119-159 | 1 leaves everything unchanged; 0 exactly when open, read and put succeed on a file; then the bucket holds the payload under its key and only a generated payload is removed from disk |
| Outbound.UploadEffect | src/file_sync.rs:103-160 | returns 0 or 1; 0 exactly when zipping (create, walk, finish) succeeds for a directory or the path is a file, and open, read and put succeed; 1 leaves the bucket unchanged; a file stays in place; for a directory only the generated archive is removed; a failed directory upload leaves what zipping left |
| Outbound.UploadedDirectoryRoundTrip | src/file_sync.rs:107-149 | a directory uploaded without faults is stored under its key as an archive that unpacks to exactly the directory's tree |
| Inbound.LocalPathKeepsFullKey | src/file_sync.rs:198-199 | a single-name key is written directly under the destination with its full name, no prefix stripped |
| Inbound.IsInbound | src/file_sync.rs:180 | a key is downloaded exactly when it does not start with s3_prefix |
| Inbound.LocalPath | src/file_sync.rs:198-199 | a relative key is written under the destination, and a key whose last segment is a name is written to a file of that name |
| Inbound.IsZipPath | src/file_sync.rs:231-232 | a path has extension "zip" exactly when its file name is a non-empty stem followed by ".zip" |
| Inbound.ExtractDir | src/file_sync.rs:235 | an archive is extracted into the destination joined with its file stem, which is the destination itself for the stem "." |
| Inbound.NamesFile | src/file_sync.rs:209-216 | a key's last segment names a file unless the key is empty, ends in '/', or is or ends in "." or ".." after a '/' |
| Inbound.CanWrite | src/file_sync.rs:209 | `fs::write` succeeds when the file can be created and the key's last segment names a file |
| Inbound.ObjectStep | src/file_sync.rs:178-243 | outbound and keyless entries change nothing; get, collect and write failures change nothing; a key naming a directory is not written; a written file is named by the key's last segment; a failed delete leaves the written file and keeps the object; otherwise the object is removed, and an archive is extracted into destination/stem and then removed locally, or the loop stops with the archive on disk |
| Inbound.Run | src/file_sync.rs:176-246 | the loop adds nothing to the bucket, changes no object, and removes only listed inbound keys |
| Inbound.RunKeepsOutboundObjects | src/file_sync.rs:178-180 | an outbound or unlisted key keeps its object |
| Inbound.RunStopSticks | src/file_sync.rs:233-239 | after the early return, the objects listed later are left unprocessed |
| Inbound.RunStopCause | src/file_sync.rs:233-239 | when the loop stops, it stops at the first position where an object's step stops, which is a failed extraction |
| Inbound.StopIsFailedExtraction | src/file_sync.rs:231-239 | where the loop stops, that object has a key, its local path has extension "zip", and extracting it fails |
| Inbound.DownloadEffect | src/file_sync.rs:162-254 | returns 1 exactly when the destination cannot be created or an extraction fails; otherwise the new state is the loop's over the listing after create_dir_all; a failed listing or no contents give 0 with the bucket unchanged; outbound objects are kept |
| Inbound.DownloadExtractsArchive | src/file_sync.rs:198-241 | an archive of a fully walked tree, downloaded without faults, ends as that tree under destination/stem with the archive removed locally and remotely, unless the archive has entries and the directory cannot be created; an empty archive is only removed |
| Inbound.DirectoryKeyKept | src/file_sync.rs:209-216 | a key that names a directory (empty, or ending in '/', "/." or "/..") is never written, and its object stays in the bucket |
| Inbound.UploadedKeyNotDownloaded | src/file_sync.rs:180 | a key produced by upload is passed over by download with the same configuration |
| Sync.FileSync.ZipDirectory | src/file_sync.rs:41-80 | the loop over the walk yields the state and result of ZipDirectoryEffect |
| Sync.FileSync.Upload | src/file_sync.rs:103-160 | the return code and new state are those of UploadEffect |
| Sync.FileSync.DownloadObject | src/file_sync.rs:178-243 | one pass of the loop body, with its continues and early return, yields the state and the stop decision of ObjectStep |
| Sync.FileSync.Download | src/file_sync.rs:162-254 | creating the destination and then looping over a listing with contents yields the return code and state of DownloadEffect |
| Sync.FileSync.DownloadObjects | src/file_sync.rs:176-246 | the loop over the listed objects, with its continues and early return, yields the state of Run and whether it stopped |

## Left out

- `FileSync::new`: building the object-store client from hard-coded credentials and region has no behaviour to state.
- `src/server.rs` (TCP echo listener) and `src/main.rs` (configuration loading, thread spawn, sleep loop) are not part of this model.
- `async`/`.await`, `ByteStream` and body collection: each network call is one step with a fault flag. A successful get returns the bucket's content for the key.
- Logging with `println!`/`eprintln!` is not modelled.
- The zip format, Deflate compression and `unix_permissions(0o755)` are not modelled. The walk order of `walkdir` is a parameter.
- Listing pagination is not modelled: the listing is a parameter and need not match the bucket.
- Sync.FileSync.Upload: the precondition `IsDir(fs, path) || FileName(path).Some?` excludes only a non-directory without a file name, on which the `unwrap` at line 120 panics. A directory without a file name, such as the root, is admitted: its archive path is itself, `File::create` fails at line 47 and `upload` returns 1. File names are modelled as strings. A name that is not valid UTF-8, on which `to_str().unwrap()` at line 120 panics, is not represented. Outbound.UploadEffect has the same precondition.
- Archive.UnzipFile: `ZipArchive::extract` of the zip crate (0.6, the version `FileOptions::default()` at line 49 implies) is modelled as creating `dst` with its ancestors only when the archive has entries; an archive without entries creates nothing and succeeds. Extraction is all-or-nothing. A failure leaves the filesystem as it was, although the library may have written part of the archive. Intermediate directories that entry names imply but that are not listed as entries are not created, and name clashes between entries and existing nodes are not modelled.
- Archive.ZipDirectoryEffect: the unfinished archive left by a failed walk or finish is modelled as empty bytes, not the partial bytes the library wrote.
- Inbound.ObjectStep: `remove_file(...).unwrap()` (line 241) always removes the archive path. The panic when extraction replaced it with a directory is not modelled. The same holds for line 152 in Outbound.UploadEffect.
- Paths.ParsePath: ".." components inside a key, and an archive stem ".." (a key ending in "...zip", which `dest_path.join("..")` at line 235 resolves to the destination's parent), are kept as literal names rather than resolved against the directory tree, symbolic links are not followed, and a relative destination is read from the filesystem root. A key whose last segment is "." or ".." is treated as naming a directory, which `fs::write` cannot write.
