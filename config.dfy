/** The configuration and the state the sync code acts on. */
module SyncConfig {
  import opened Files

  /** `FileSyncConfig`: the object store endpoint, the bucket, the outbound key prefix and the local inbox directory. */
  datatype FileSyncConfig = FileSyncConfig(s3Path: string, bucketName: string, s3Prefix: string, destinationPath: string)

  /** The objects of the configured bucket, by key. */
  type Bucket = map<string, Content>

  /** The local filesystem and the bucket together. */
  datatype Store = Store(fs: FileSystem, bucket: Bucket)

  /** A return code (0 success, 1 failure) and the state left behind. */
  datatype Outcome = Outcome(code: int, store: Store)
}
