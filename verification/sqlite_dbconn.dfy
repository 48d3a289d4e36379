/**
 * DBConn::check_metadata_is_compatible: the schema-version gate run when
 * the metadata database is opened.  The database's user_version pragma is
 * a field of the connection.
 */
module SqliteDbConn {
  import opened Wrappers

  const SFS_METADATA_VERSION: int := 1

  /** Why the database was refused. */
  datatype Incompatible = TooOld | TooFarAhead

  class DbConn {
    /** PRAGMA user_version of the open database. */
    var userVersion: int

    constructor(v: int)
      ensures userVersion == v
    {
      userVersion := v;
    }

    /** A fresh database (version 0) is stamped with the current version;
     *  an older one is refused as too old, a newer one as too far ahead;
     *  the current version passes untouched. */
    method CheckMetadataIsCompatible() returns (r: Option<Incompatible>)
      modifies this
      ensures old(userVersion) == 0 ==> r == None && userVersion == SFS_METADATA_VERSION
      ensures old(userVersion) != 0 ==> userVersion == old(userVersion)
      ensures old(userVersion) != 0 && old(userVersion) < SFS_METADATA_VERSION ==> r == Some(TooOld)
      ensures old(userVersion) > SFS_METADATA_VERSION ==> r == Some(TooFarAhead)
      ensures old(userVersion) == SFS_METADATA_VERSION ==> r == None
    {
      if userVersion == 0 {
        userVersion := SFS_METADATA_VERSION;
        return None;
      } else if userVersion < SFS_METADATA_VERSION {
        return Some(TooOld);
      } else if userVersion > SFS_METADATA_VERSION {
        return Some(TooFarAhead);
      }
      return None;
    }
  }

  /** The gate as a function of the stored version: the version the
   *  database ends with and the refusal, if any. */
  function MetadataGate(v: int): (r: (int, Option<Incompatible>))
    ensures r.1 == None <==> v == 0 || v == SFS_METADATA_VERSION
    ensures r.1 == None ==> r.0 == SFS_METADATA_VERSION
    ensures r.1 != None ==> r.0 == v
  {
    if v == 0 then (SFS_METADATA_VERSION, None)
    else if v < SFS_METADATA_VERSION then (v, Some(TooOld))
    else if v > SFS_METADATA_VERSION then (v, Some(TooFarAhead))
    else (v, None)
  }

  /** Once the gate has passed, running it again passes without change. */
  lemma GateIsIdempotent(v: int)
    requires MetadataGate(v).1 == None
    ensures MetadataGate(MetadataGate(v).0) == (SFS_METADATA_VERSION, None)
  {
  }
}
