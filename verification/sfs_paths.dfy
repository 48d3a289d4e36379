/**
 * Directory layout of the older simplefile store
 * (store/simplefile/sfs_paths.cc): object directories are named by the
 * hash of the object name.
 */
module SfsPaths {
  import opened FsPath

  function BucketsPath(dataPath: Path): (p: Path)
    ensures HasFileName(dataPath) ==> p == dataPath + "/buckets"
  {
    Join(dataPath, "buckets")
  }

  function UsersPath(dataPath: Path): (p: Path)
    ensures HasFileName(dataPath) ==> p == dataPath + "/users"
  {
    Join(dataPath, "users")
  }

  function BucketPath(dataPath: Path, bucket: string): (p: Path)
    requires IsComponent(bucket)
    ensures HasFileName(dataPath) ==> p == dataPath + "/buckets/" + bucket
  {
    JoinComponentHasFileName(dataPath, "buckets");
    Join(BucketsPath(dataPath), bucket)
  }

  function BucketMetadataPath(dataPath: Path, bucket: string, metadataFn: string): (p: Path)
    requires IsComponent(bucket) && IsComponent(metadataFn)
    ensures HasFileName(dataPath) ==> p == dataPath + "/buckets/" + bucket + "/" + metadataFn
  {
    JoinComponentHasFileName(BucketsPath(dataPath), bucket);
    Join(BucketPath(dataPath, bucket), metadataFn)
  }

  function ObjectsPath(dataPath: Path, bucket: string): (p: Path)
    requires IsComponent(bucket)
    ensures HasFileName(dataPath) ==> p == dataPath + "/buckets/" + bucket + "/objects"
  {
    JoinComponentHasFileName(BucketsPath(dataPath), bucket);
    Join(BucketPath(dataPath, bucket), "objects")
  }

  /** object_path: the object's directory is named by the hash of its name
    * (SHA-256 in hex, supplied as hash). */
  function ObjectPath(dataPath: Path, bucket: string, name: string, hash: string -> string): (p: Path)
    requires IsComponent(bucket) && IsComponent(hash(name))
    ensures HasFileName(dataPath) ==> p == dataPath + "/buckets/" + bucket + "/objects/" + hash(name)
  {
    JoinComponentHasFileName(BucketPath(dataPath, bucket), "objects");
    Join(ObjectsPath(dataPath, bucket), hash(name))
  }

  function ObjectDataPath(dataPath: Path, bucket: string, name: string, hash: string -> string): (p: Path)
    requires IsComponent(bucket) && IsComponent(hash(name))
    ensures HasFileName(dataPath) ==>
      p == dataPath + "/buckets/" + bucket + "/objects/" + hash(name) + "/data"
  {
    JoinComponentHasFileName(ObjectsPath(dataPath, bucket), hash(name));
    Join(ObjectPath(dataPath, bucket, name, hash), "data")
  }

  function ObjectMetadataPath(dataPath: Path, bucket: string, name: string, hash: string -> string,
                              metadataFn: string): (p: Path)
    requires IsComponent(bucket) && IsComponent(hash(name)) && IsComponent(metadataFn)
    ensures HasFileName(dataPath) ==>
      p == dataPath + "/buckets/" + bucket + "/objects/" + hash(name) + "/" + metadataFn
  {
    JoinComponentHasFileName(ObjectsPath(dataPath, bucket), hash(name));
    Join(ObjectPath(dataPath, bucket, name, hash), metadataFn)
  }

  /** Objects whose names hash differently live in different directories,
    * whatever characters the names hold. */
  lemma ObjectPathsDistinct(dataPath: Path, bucket: string, a: string, b: string, hash: string -> string)
    requires IsComponent(bucket) && IsComponent(hash(a)) && IsComponent(hash(b))
    requires hash(a) != hash(b)
    ensures ObjectPath(dataPath, bucket, a, hash) != ObjectPath(dataPath, bucket, b, hash)
  {
    if ObjectPath(dataPath, bucket, a, hash) == ObjectPath(dataPath, bucket, b, hash) {
      JoinInjective(ObjectsPath(dataPath, bucket), hash(a), hash(b));
    }
  }

  /** Different buckets get different directories. */
  lemma BucketPathsDistinct(dataPath: Path, a: string, b: string)
    requires IsComponent(a) && IsComponent(b) && a != b
    ensures BucketPath(dataPath, a) != BucketPath(dataPath, b)
  {
    if BucketPath(dataPath, a) == BucketPath(dataPath, b) {
      JoinInjective(BucketsPath(dataPath), a, b);
    }
  }

  /** The data file and the metadata files of an object are distinct unless the
    * metadata file is itself called "data". */
  lemma DataApartFromMetadata(dataPath: Path, bucket: string, name: string, hash: string -> string,
                              metadataFn: string)
    requires IsComponent(bucket) && IsComponent(hash(name)) && IsComponent(metadataFn)
    ensures (ObjectDataPath(dataPath, bucket, name, hash)
             == ObjectMetadataPath(dataPath, bucket, name, hash, metadataFn)) <==> metadataFn == "data"
  {
    if ObjectDataPath(dataPath, bucket, name, hash) == ObjectMetadataPath(dataPath, bucket, name, hash, metadataFn) {
      JoinInjective(ObjectPath(dataPath, bucket, name, hash), "data", metadataFn);
    }
  }

  /** SimpleFileBucket::objects_path: "objects" under the bucket's own path. */
  function BucketObjectsPath(bucketPath: Path): (p: Path)
    ensures HasFileName(bucketPath) ==> p == bucketPath + "/objects"
  {
    Join(bucketPath, "objects")
  }

  /** SimpleFileBucket::bucket_metadata_path: metadataFn under the bucket's path. */
  function BucketFilePath(bucketPath: Path, metadataFn: string): (p: Path)
    requires IsComponent(metadataFn)
    ensures HasFileName(bucketPath) ==> p == bucketPath + "/" + metadataFn
  {
    Join(bucketPath, metadataFn)
  }

  /** A store bucket's own objects path is the store's objects path for it. */
  lemma BucketObjectsAgree(dataPath: Path, bucket: string)
    requires IsComponent(bucket)
    ensures BucketObjectsPath(BucketPath(dataPath, bucket)) == ObjectsPath(dataPath, bucket)
  {
  }
}
