/**
 * Directory layout of the simplefile driver (rgw_sal_simplefile.h): object
 * files are named by the object name itself, and an object's metadata file
 * sits beside it as "_meta.<name>".
 */
module SimpleFileStorePaths {
  import opened FsPath

  function MetaPath(dataPath: Path): (p: Path)
    ensures HasFileName(dataPath) ==> p == dataPath + "/meta"
  {
    Join(dataPath, "meta")
  }

  function BucketsPath(dataPath: Path): (p: Path)
    ensures HasFileName(dataPath) ==> p == dataPath + "/buckets"
  {
    Join(dataPath, "buckets")
  }

  function UsersPath(dataPath: Path): (p: Path)
    ensures HasFileName(dataPath) ==> p == dataPath + "/users"
  {
    Join(dataPath, "users")
  }

  /** The three top-level directories are distinct. */
  lemma TopLevelDistinct(dataPath: Path)
    ensures MetaPath(dataPath) != BucketsPath(dataPath)
    ensures MetaPath(dataPath) != UsersPath(dataPath)
    ensures BucketsPath(dataPath) != UsersPath(dataPath)
  {
    if MetaPath(dataPath) == BucketsPath(dataPath) {
      JoinInjective(dataPath, "meta", "buckets");
    }
    if MetaPath(dataPath) == UsersPath(dataPath) {
      JoinInjective(dataPath, "meta", "users");
    }
    if BucketsPath(dataPath) == UsersPath(dataPath) {
      JoinInjective(dataPath, "buckets", "users");
    }
  }

  function BucketPath(dataPath: Path, bucket: string): (p: Path)
    requires IsComponent(bucket)
    ensures HasFileName(dataPath) ==> p == dataPath + "/buckets/" + bucket
    ensures HasFileName(p)
  {
    JoinComponentHasFileName(dataPath, "buckets");
    JoinComponentHasFileName(BucketsPath(dataPath), bucket);
    Join(BucketsPath(dataPath), bucket)
  }

  function BucketMetadataPath(dataPath: Path, bucket: string): (p: Path)
    requires IsComponent(bucket)
    ensures p == BucketPath(dataPath, bucket) + "/_meta.json"
  {
    Join(BucketPath(dataPath, bucket), "_meta.json")
  }

  function ObjectsPath(dataPath: Path, bucket: string): (p: Path)
    requires IsComponent(bucket)
    ensures p == BucketPath(dataPath, bucket) + "/objects"
    ensures HasFileName(p)
  {
    Join(BucketPath(dataPath, bucket), "objects")
  }

  /** object_path: the object name is used as is, with no hashing. */
  function ObjectPath(dataPath: Path, bucket: string, name: string): (p: Path)
    requires IsComponent(bucket)
    ensures !IsAbsolute(name) ==> p == ObjectsPath(dataPath, bucket) + "/" + name
    ensures IsAbsolute(name) ==> p == name
  {
    Join(ObjectsPath(dataPath, bucket), name)
  }

  /** object_metadata_path: "_meta." + name in the objects directory. */
  function ObjectMetadataPath(dataPath: Path, bucket: string, name: string): (p: Path)
    requires IsComponent(bucket)
    ensures p == ObjectsPath(dataPath, bucket) + "/_meta." + name
  {
    Join(ObjectsPath(dataPath, bucket), "_meta." + name)
  }

  /** Distinct single-component names get distinct object files. */
  lemma ObjectPathInjective(dataPath: Path, bucket: string, a: string, b: string)
    requires IsComponent(bucket) && IsComponent(a) && IsComponent(b)
    requires ObjectPath(dataPath, bucket, a) == ObjectPath(dataPath, bucket, b)
    ensures a == b
  {
    JoinInjective(ObjectsPath(dataPath, bucket), a, b);
  }

  /** Data and metadata share one directory: the object called "_meta." + n is
    * stored at the path of n's metadata file. */
  lemma MetadataSharesNamespace(dataPath: Path, bucket: string, n: string)
    requires IsComponent(bucket)
    ensures ObjectMetadataPath(dataPath, bucket, n) == ObjectPath(dataPath, bucket, "_meta." + n)
  {
  }

  /** A name starting with '/' is not placed under the bucket at all. */
  lemma AbsoluteNameEscapes(dataPath: Path, bucket: string, name: string)
    requires IsComponent(bucket) && IsAbsolute(name)
    ensures ObjectPath(dataPath, bucket, name) == name
  {
  }
}
