/**
 * The versioned object-map files of a simplefile bucket directory:
 * "_objects.map.v<N>" holds the map written as version N, and the link
 * "_objects.map" names the current one. Shared by the bucket manager of
 * the older store and the simplefile driver's bucket.
 */
module ObjectMapFiles {
  import opened Wrappers
  import Decimal

  /** What one map file holds: the version it was written as and the map. */
  datatype MapImage = MapImage(version: nat, objects: map<string, string>)

  /** The map files present (keyed by N) and the target of the link, if any. */
  datatype Disk = Disk(files: map<nat, MapImage>, link: Option<nat>)

  const MAP_LINK_NAME: string := "_objects.map"

  function MapFileName(v: nat): (name: string)
    ensures |name| > |MAP_LINK_NAME|
  {
    "_objects.map.v" + Decimal.NatToString(v)
  }

  /** Map files of different versions have different names, and none is the link,
    * so files can be keyed by version. */
  lemma MapFileNames(v: nat, w: nat)
    ensures MapFileName(v) == MapFileName(w) <==> v == w
    ensures MapFileName(v) != MAP_LINK_NAME
  {
    if MapFileName(v) == MapFileName(w) {
      assert MapFileName(v)[14..] == Decimal.NatToString(v);
      assert MapFileName(w)[14..] == Decimal.NatToString(w);
      Decimal.NatToStringInjective(v, w);
    }
  }

  /**
   * Writing version v: refused (the ceph_assert fires) when that file
   * already exists; otherwise the file is written and the link re-pointed.
   */
  function WriteVersion(d: Disk, v: nat, objects: map<string, string>): (r: Option<Disk>)
    ensures r.None? <==> v in d.files
    ensures r.Some? ==> r.value.files == d.files[v := MapImage(v, objects)]
    ensures r.Some? ==> r.value.link == Some(v)
  {
    if v in d.files then None else Some(Disk(d.files[v := MapImage(v, objects)], Some(v)))
  }

  /** What reading the link yields: None when there is no link or its target is missing. */
  function ReadLinked(d: Disk): (r: Option<MapImage>)
    ensures r.Some? <==> d.link.Some? && d.link.value in d.files
    ensures r.Some? ==> r.value == d.files[d.link.value]
  {
    if d.link.Some? && d.link.value in d.files then Some(d.files[d.link.value]) else None
  }

  /** No map file is newer than the given version. */
  predicate NoneAfter(d: Disk, version: nat)
  {
    forall w :: w in d.files ==> w <= version
  }

  /** Writing the version after the newest never trips the assertion, keeps every
    * older file, and makes the new map the linked one. */
  lemma WriteNext(d: Disk, version: nat, objects: map<string, string>)
    requires NoneAfter(d, version)
    ensures WriteVersion(d, version + 1, objects).Some?
    ensures var d' := WriteVersion(d, version + 1, objects).value;
      NoneAfter(d', version + 1)
      && ReadLinked(d') == Some(MapImage(version + 1, objects))
      && forall w :: w in d.files ==> w in d'.files && d'.files[w] == d.files[w]
  {
  }
}
