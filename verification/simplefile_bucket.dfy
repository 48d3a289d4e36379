/**
 * SimpleFileBucket (driver/simplefile/bucket.cc): a bucket directory with
 * its metadata file, its objects directory and the versioned object map.
 */
module SimpleFileBucketDriver {
  import opened Wrappers
  import FsPath
  import opened ObjectMapFiles
  import Collections
  import StringOrder

  /** One listing entry: the key and what the object reports of itself. */
  datatype DirEntry = DirEntry(name: string, size: nat, mtime: int)

  /** The entry carries what the object reports of its size and mtime. */
  predicate Reported(e: DirEntry, size: string -> nat, mtime: string -> int)
  {
    e.size == size(e.name) && e.mtime == mtime(e.name)
  }

  /** The version-1 map written by init is the version the next write picks as
    * written, so a second write on the same bucket object trips the assertion. */
  lemma InitThenAddAborts(name: string, hash: string)
    ensures var afterInit := WriteVersion(Disk(map[], None), 0 + 1, map[]);
      afterInit.Some? && WriteVersion(afterInit.value, 0 + 1, map[name := hash]).None?
  {
  }

  /** Visiting the least remaining name keeps the visit in map order. */
  lemma VisitLeast(keys: set<string>, visited: seq<string>, todo: set<string>)
    requires todo != {}
    requires StringOrder.SortedKeys(keys) == visited + StringOrder.SortedKeys(todo)
    ensures var n := StringOrder.Least(todo);
            StringOrder.SortedKeys(keys) == (visited + [n]) + StringOrder.SortedKeys(todo - {n})
  {
    var n := StringOrder.Least(todo);
    assert StringOrder.SortedKeys(todo) == [n] + StringOrder.SortedKeys(todo - {n});
  }

  /** Entries named by the map's keys in order hold every key and nothing else. */
  lemma ListedKeys(keys: set<string>, entries: seq<DirEntry>)
    requires |entries| == |keys|
    requires forall i :: 0 <= i < |entries| ==> entries[i].name == StringOrder.SortedKeys(keys)[i]
    ensures forall n :: n in keys <==> exists i :: 0 <= i < |entries| && entries[i].name == n
  {
    var sk := StringOrder.SortedKeys(keys);
    StringOrder.SortedKeysMembers(keys);
    forall n | n in keys
      ensures exists i :: 0 <= i < |entries| && entries[i].name == n
    {
      var i :| 0 <= i < |sk| && sk[i] == n;
      assert entries[i].name == n;
    }
  }

  /** Entries named by the map's keys in order are in ascending name order. */
  lemma ListedAscending(keys: set<string>, entries: seq<DirEntry>)
    requires |entries| == |keys|
    requires forall i :: 0 <= i < |entries| ==> entries[i].name == StringOrder.SortedKeys(keys)[i]
    ensures forall i, j :: 0 <= i < j < |entries| ==> StringOrder.LexLess(entries[i].name, entries[j].name)
  {
    StringOrder.SortedKeysAscending(keys);
  }

  /**
   * One entry per name, in the order iterating a std::map visits its keys
   * (ListedKeys and ListedAscending: each name once, ascending).
   */
  method ListEntries(keys: set<string>, size: string -> nat, mtime: string -> int)
    returns (entries: seq<DirEntry>)
    ensures |entries| == |keys|
    ensures forall i :: 0 <= i < |entries| ==> entries[i].name == StringOrder.SortedKeys(keys)[i]
    ensures forall i :: 0 <= i < |entries| ==> Reported(entries[i], size, mtime)
  {
    var todo := keys;
    ghost var visited: seq<string> := [];
    entries := [];
    while todo != {}
      invariant StringOrder.SortedKeys(keys) == visited + StringOrder.SortedKeys(todo)
      invariant |entries| == |visited|
      invariant forall i :: 0 <= i < |entries| ==> entries[i].name == visited[i] && Reported(entries[i], size, mtime)
      decreases |todo|
    {
      var n := StringOrder.Least(todo);
      VisitLeast(keys, visited, todo);
      entries := entries + [DirEntry(n, size(n), mtime(n))];
      visited := visited + [n];
      todo := todo - {n};
    }
  }

  class Bucket {
    /** The bucket directory. */
    const path: FsPath.Path
    var bucketName: string
    var placementName: string
    var storageClass: string
    var objectMapVersion: nat
    var objectsMap: map<string, string>
    /** The object-map files and link under path. */
    var disk: Disk
    /** Whether "_meta.json" and "objects" exist under path. */
    var metaExists: bool
    var objectsDirExists: bool

    constructor (path0: FsPath.Path, disk0: Disk, metaExists0: bool, objectsDirExists0: bool)
      ensures path == path0 && disk == disk0
      ensures metaExists == metaExists0 && objectsDirExists == objectsDirExists0
      ensures objectMapVersion == 0 && objectsMap == map[]
    {
      path := path0;
      disk := disk0;
      metaExists := metaExists0;
      objectsDirExists := objectsDirExists0;
      objectMapVersion := 0;
      objectsMap := map[];
      bucketName := "";
      placementName := "";
      storageClass := "";
    }

    function BucketMetadataPath(): (p: FsPath.Path)
      ensures FsPath.HasFileName(path) ==> p == path + "/_meta.json"
    {
      FsPath.Join(path, "_meta.json")
    }

    function ObjectsPath(): (p: FsPath.Path)
      ensures FsPath.HasFileName(path) ==> p == path + "/objects"
    {
      FsPath.Join(path, "objects")
    }

    /** The in-memory map is the linked map file and no newer file exists. */
    predicate Synced()
      reads this
    {
      ReadLinked(disk) == Some(MapImage(objectMapVersion, objectsMap)) && NoneAfter(disk, objectMapVersion)
    }

    /**
     * write_object_map as the source has it: writes version + 1 but leaves
     * object_map_version where it was.
     */
    method WriteObjectMapAsWritten() returns (aborted: bool)
      modifies this
      ensures var r := WriteVersion(old(disk), old(objectMapVersion) + 1, objectsMap);
        aborted == r.None? && disk == (if r.Some? then r.value else old(disk))
      ensures objectMapVersion == old(objectMapVersion) && objectsMap == old(objectsMap)
      ensures metaExists == old(metaExists) && objectsDirExists == old(objectsDirExists)
      ensures bucketName == old(bucketName) && placementName == old(placementName)
      ensures storageClass == old(storageClass)
    {
      var r := WriteVersion(disk, objectMapVersion + 1, objectsMap);
      if r.None? {
        return true;
      }
      disk := r.value;
      aborted := false;
    }

    /**
     * write_object_map with the written version recorded as the current one,
     * which is what load_object_map would read back.
     */
    method WriteObjectMap() returns (aborted: bool)
      modifies this
      ensures var r := WriteVersion(old(disk), old(objectMapVersion) + 1, objectsMap);
        aborted == r.None? && disk == (if r.Some? then r.value else old(disk))
      ensures objectMapVersion == if aborted then old(objectMapVersion) else old(objectMapVersion) + 1
      ensures objectsMap == old(objectsMap)
      ensures NoneAfter(old(disk), old(objectMapVersion)) ==> !aborted && Synced()
      ensures metaExists == old(metaExists) && objectsDirExists == old(objectsDirExists)
      ensures bucketName == old(bucketName) && placementName == old(placementName)
      ensures storageClass == old(storageClass)
    {
      var v := objectMapVersion + 1;
      var r := WriteVersion(disk, v, objectsMap);
      if r.None? {
        return true;
      }
      if NoneAfter(disk, objectMapVersion) {
        WriteNext(disk, objectMapVersion, objectsMap);
      }
      disk := r.value;
      objectMapVersion := v;
      aborted := false;
    }

    /** load_object_map: an unreadable link aborts; otherwise version and map are restored. */
    method LoadObjectMap() returns (aborted: bool)
      modifies this
      ensures aborted <==> ReadLinked(disk).None?
      ensures aborted ==> objectMapVersion == old(objectMapVersion) && objectsMap == old(objectsMap)
      ensures !aborted ==> objectMapVersion == ReadLinked(disk).value.version
      ensures !aborted ==> objectsMap == ReadLinked(disk).value.objects
      ensures disk == old(disk) && metaExists == old(metaExists) && objectsDirExists == old(objectsDirExists)
      ensures bucketName == old(bucketName) && placementName == old(placementName)
      ensures storageClass == old(storageClass)
    {
      var image := ReadLinked(disk);
      if image.None? {
        return true;
      }
      objectMapVersion := image.value.version;
      objectsMap := image.value.objects;
      aborted := false;
    }

    /**
     * init: refuses (assertion) when the metadata file or the objects
     * directory exists; otherwise creates the directory, sets the default
     * placement, writes the metadata and the first object map, recording
     * the version written (the corrected WriteObjectMap; the source's
     * WriteObjectMapAsWritten leaves the version behind).
     */
    method Init(b: string) returns (aborted: bool)
      modifies this
      ensures old(metaExists) || old(objectsDirExists) ==> aborted && disk == old(disk)
      ensures !old(metaExists) && !old(objectsDirExists) ==>
        metaExists && objectsDirExists && bucketName == b
        && placementName == "default" && storageClass == "STANDARD"
        && aborted == (old(objectMapVersion) + 1 in old(disk).files)
      ensures !aborted ==> objectMapVersion == old(objectMapVersion) + 1
      ensures NoneAfter(old(disk), old(objectMapVersion)) && !old(metaExists) && !old(objectsDirExists) ==>
        !aborted && Synced()
      ensures objectsMap == old(objectsMap)
    {
      if metaExists || objectsDirExists {
        return true;
      }
      objectsDirExists := true;
      bucketName := b;
      placementName := "default";
      storageClass := "STANDARD";
      metaExists := true;
      aborted := WriteObjectMap();
    }

    /**
     * maybe_add_object: a known name is left alone; a new one is mapped to
     * its hash and the map is written, through the corrected
     * WriteObjectMap. Reports true either way.
     */
    method MaybeAddObject(name: string, hash: string) returns (r: bool, aborted: bool)
      modifies this
      ensures r
      ensures name in old(objectsMap) ==>
        (!aborted && objectsMap == old(objectsMap) && disk == old(disk)
         && objectMapVersion == old(objectMapVersion))
      ensures name !in old(objectsMap) ==>
        (objectsMap == old(objectsMap)[name := hash]
         && var w := WriteVersion(old(disk), old(objectMapVersion) + 1, objectsMap);
            aborted == w.None? && disk == (if w.Some? then w.value else old(disk)))
      ensures old(Synced()) ==> !aborted && Synced()
      ensures metaExists == old(metaExists) && objectsDirExists == old(objectsDirExists)
    {
      if name in objectsMap {
        return true, false;
      }
      objectsMap := objectsMap[name := hash];
      aborted := WriteObjectMap();
      r := true;
    }

    /**
     * list: one entry per map entry, in the map's name order, each carrying
     * the object's size and mtime. Every object's data file must exist and
     * be a regular file (dataFileIsRegular, by object name); the source
     * asserts this, so one that is missing or not regular aborts the
     * process and nothing is listed.
     */
    method List(size: string -> nat, mtime: string -> int, dataFileIsRegular: string -> bool)
      returns (aborted: bool, entries: seq<DirEntry>)
      ensures aborted <==> exists n :: n in objectsMap && !dataFileIsRegular(n)
      ensures aborted ==> entries == []
      ensures !aborted ==> |entries| == |objectsMap|
      ensures !aborted ==> forall i :: 0 <= i < |entries| ==> entries[i].name == StringOrder.SortedKeys(objectsMap.Keys)[i]
      ensures !aborted ==> forall i :: 0 <= i < |entries| ==> Reported(entries[i], size, mtime)
      ensures !aborted ==> forall n :: n in objectsMap <==> exists i :: 0 <= i < |entries| && entries[i].name == n
      ensures forall i, j :: 0 <= i < j < |entries| ==> StringOrder.LexLess(entries[i].name, entries[j].name)
    {
      aborted := exists n :: n in objectsMap && !dataFileIsRegular(n);
      if aborted {
        return true, [];
      }
      entries := ListEntries(objectsMap.Keys, size, mtime);
      assert |objectsMap.Keys| == |objectsMap|;
      ListedKeys(objectsMap.Keys, entries);
      ListedAscending(objectsMap.Keys, entries);
    }
  }
}
