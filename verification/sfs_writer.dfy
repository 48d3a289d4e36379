/**
 * The SFS driver's data writers (writer.cc): the atomic writer, which
 * writes the data file of a new object version and then commits the
 * version, and the multipart writer, which appends a part's data to the
 * part's file.
 *
 * The file system's answers (whether mkdir, open, write and close succeed,
 * and the errno when they fail) and the store's free-space figures are
 * parameters; what the writer asks of the file system is kept as a log of
 * operations, so that "nothing is written" and "the file is closed and
 * removed" are statements about that log.
 */
module SfsWriter {
  import opened Wrappers
  import opened ConversionUtils
  import opened RgwErrors
  import opened SfsTypes
  import FsPath

  /** The Linux errno values the writer tells apart. */
  const ENOSPC: int := 28
  const EDQUOT: int := 122

  /** What ::close returns on every failure; the reason is left in errno. */
  const CLOSE_FAILED: int := -1

  /** The errnos of a full file system or an exhausted disk quota. */
  predicate FullDisk(errno: int)
  {
    errno == ENOSPC || errno == EDQUOT
  }

  /**
   * The writer's switch on a failed call's return value: a negated
   * full-disk errno is the quota error, anything else an internal error.
   */
  function FailureOf(ret: int): (e: Error)
    ensures e == ERR_QUOTA_EXCEEDED <==> FullDisk(-ret)
    ensures e != ERR_QUOTA_EXCEEDED ==> e == ERR_INTERNAL_ERROR
  {
    if ret == -EDQUOT || ret == -ENOSPC then ERR_QUOTA_EXCEEDED else ERR_INTERNAL_ERROR
  }

  /**
   * close()'s error as written: the switch is applied to ::close's return
   * value, which is -1 whatever went wrong, so a full disk is never
   * reported as the quota error.
   */
  function CloseErrorAsWritten(errno: int): (e: Error)
    requires errno > 0
    ensures e == ERR_INTERNAL_ERROR
  {
    FailureOf(CLOSE_FAILED)
  }

  /** close()'s error as intended: the switch applied to the negated errno. */
  function CloseError(errno: int): (e: Error)
    requires errno > 0
    ensures e == ERR_QUOTA_EXCEEDED <==> FullDisk(errno)
    ensures e != ERR_QUOTA_EXCEEDED ==> e == ERR_INTERNAL_ERROR
  {
    FailureOf(-errno)
  }

  /** A close failing with ENOSPC: the quota error is intended, an internal error is returned. */
  lemma CloseFullDiskAsWritten()
    ensures CloseErrorAsWritten(ENOSPC) == ERR_INTERNAL_ERROR
    ensures CloseError(ENOSPC) == ERR_QUOTA_EXCEEDED
  {
    assert FullDisk(ENOSPC);
  }

  /** The error of a failed mkdir: only ENOSPC is the quota error. */
  function MkdirError(errno: int): (e: Error)
    ensures e == ERR_QUOTA_EXCEEDED <==> errno == ENOSPC
    ensures e != ERR_QUOTA_EXCEEDED ==> e == ERR_INTERNAL_ERROR
  {
    if errno == ENOSPC then ERR_QUOTA_EXCEEDED else ERR_INTERNAL_ERROR
  }

  /** RGW_ATTR_OBJECT_RETENTION. */
  const RGW_ATTR_OBJECT_RETENTION: string := "user.rgw.object-retention"

  /**
   * The attributes complete stores: the bucket's default retention (the
   * encoded retention its object-lock rule gives, None when the bucket has
   * no lock or no rule) is added only when the object brings none of its
   * own; nothing else changes.
   */
  function WithDefaultRetention(attrs: Attrs, retention: Option<Blob>): (r: Attrs)
    ensures forall n :: n != RGW_ATTR_OBJECT_RETENTION ==> (n in r <==> n in attrs)
    ensures forall n :: n != RGW_ATTR_OBJECT_RETENTION && n in attrs ==> r[n] == attrs[n]
    ensures RGW_ATTR_OBJECT_RETENTION in r <==> RGW_ATTR_OBJECT_RETENTION in attrs || retention.Some?
    ensures RGW_ATTR_OBJECT_RETENTION in attrs ==> r[RGW_ATTR_OBJECT_RETENTION] == attrs[RGW_ATTR_OBJECT_RETENTION]
    ensures RGW_ATTR_OBJECT_RETENTION !in attrs && retention.Some? ==>
              r[RGW_ATTR_OBJECT_RETENTION] == retention.value
  {
    if retention.Some? && RGW_ATTR_OBJECT_RETENTION !in attrs
    then attrs[RGW_ATTR_OBJECT_RETENTION := retention.value]
    else attrs
  }

  /** The version id create_version uses: the key's instance, or the generated one when it is empty. */
  function VersionIdFor(key: ObjKey, generated: string): (id: string)
    ensures key.instance != "" ==> id == key.instance
    ensures key.instance == "" ==> id == generated
  {
    if key.instance == "" then generated else key.instance
  }

  /** What the writers ask of the file system. */
  datatype FsOp =
    | Mkdirs(dir: FsPath.Path)
    | Create(file: FsPath.Path)
    | WriteAt(fd: int, len: nat, offset: int)
    | Fsync(fd: int)
    | CloseFd(fd: int)
    | Remove(file: FsPath.Path)
    | FsyncDir(dir: FsPath.Path)

  /** Where metadata_finish fails, if it does: with the code of the system error it throws. */
  datatype FinishOutcome = Finished | ObjectRowFails(code: int) | VersionRowFails(code: int)

  /**
   * SFSAtomicWriter: writes one new object version. bytesWritten counts the
   * bytes written so far; once ioFailed is set no more data is written.
   */
  class SFSAtomicWriter {
    const db: MetadataDb
    const bucket: Bucket
    const key: ObjKey
    const dataPath: FsPath.Path
    var objref: Object?
    var objectPath: FsPath.Path
    var objectDir: FsPath.Path
    var bytesWritten: nat
    var ioFailed: bool
    var fd: int
    var ops: seq<FsOp>

    /** A failed writer has no open file, and an open file belongs to the version the writer created. */
    predicate Valid()
      reads this
    {
      (ioFailed ==> fd == -1) && (fd >= 0 ==> objref != null)
    }

    constructor (db0: MetadataDb, bucket0: Bucket, key0: ObjKey, dataPath0: FsPath.Path)
      ensures db == db0 && bucket == bucket0 && key == key0 && dataPath == dataPath0
      ensures objref == null && bytesWritten == 0 && !ioFailed && fd == -1 && ops == []
      ensures Valid()
    {
      db := db0;
      bucket := bucket0;
      key := key0;
      dataPath := dataPath0;
      objref := null;
      objectPath := "";
      objectDir := "";
      bytesWritten := 0;
      ioFailed := false;
      fd := -1;
      ops := [];
    }

    /**
     * open: create the version's directory, then create (truncating) the
     * data file. A failed mkdir is the quota error for ENOSPC and an
     * internal error otherwise; a failed open is an internal error. Only a
     * successful open sets fd.
     */
    method Open(mkdirErrno: Option<int>, openRet: int) returns (r: Result<(), Error>)
      modifies this
      ensures mkdirErrno.Some? ==> r == Err(MkdirError(mkdirErrno.value)) && ops == old(ops) + [Mkdirs(objectDir)]
      ensures mkdirErrno.None? ==> ops == old(ops) + [Mkdirs(objectDir), Create(objectPath)]
      ensures mkdirErrno.None? && openRet < 0 ==> r == Err(ERR_INTERNAL_ERROR)
      ensures mkdirErrno.None? && openRet >= 0 ==> r == Ok(()) && fd == openRet
      ensures r.Err? ==> fd == old(fd)
      ensures objref == old(objref) && objectPath == old(objectPath) && objectDir == old(objectDir)
      ensures bytesWritten == old(bytesWritten) && ioFailed == old(ioFailed)
    {
      ops := ops + [Mkdirs(objectDir)];
      if mkdirErrno.Some? {
        return Err(MkdirError(mkdirErrno.value));
      }
      ops := ops + [Create(objectPath)];
      if openRet < 0 {
        return Err(ERR_INTERNAL_ERROR);
      }
      fd := openRet;
      r := Ok(());
    }

    /**
     * close: fsync and close the file; fd is -1 afterwards whatever
     * happens. A failed close (closeErrno, the errno it leaves) marks the
     * writer failed. The error returned is CloseError's, the corrected one;
     * CloseErrorAsWritten is the source's.
     */
    method Close(closeErrno: Option<int>) returns (r: Result<(), Error>)
      requires fd >= 0
      requires closeErrno.Some? ==> closeErrno.value > 0
      modifies this
      ensures fd == -1
      ensures ops == old(ops) + [Fsync(old(fd)), CloseFd(old(fd))]
      ensures r.Ok? <==> closeErrno.None?
      ensures r.Err? ==> r.error == CloseError(closeErrno.value) && ioFailed
      ensures r.Ok? ==> ioFailed == old(ioFailed)
      ensures objref == old(objref) && objectPath == old(objectPath) && objectDir == old(objectDir)
      ensures bytesWritten == old(bytesWritten)
      ensures Valid()
    {
      ops := ops + [Fsync(fd), CloseFd(fd)];
      fd := -1;
      if closeErrno.Some? {
        ioFailed := true;
        return Err(CloseError(closeErrno.value));
      }
      r := Ok(());
    }

    /**
     * cleanup: the data file is removed, its directory fsynced and the
     * version row deleted; failures of each are ignored.
     */
    method Cleanup()
      requires objref != null
      modifies this, db
      ensures objref == old(objref) && objectPath == old(objectPath) && objectDir == old(objectDir)
      ensures ops == old(ops) + [Remove(objectPath), FsyncDir(objectDir)]
      ensures db.requests == old(db.requests) + [RemoveVersion(objref.versionId)]
      ensures bytesWritten == old(bytesWritten) && ioFailed == old(ioFailed) && fd == old(fd)
    {
      ops := ops + [Remove(objectPath), FsyncDir(objectDir)];
      var _ := objref.DeleteObjectVersion(db);
    }

    /**
     * The tail of prepare once the version exists: the writer takes the
     * object, derives the data file's path from the store's data path and
     * the version's storage path, and opens the file.
     */
    method Attach(o: Object, mkdirErrno: Option<int>, openRet: int) returns (r: Result<(), Error>)
      requires o.Valid() && fd < 0 && !ioFailed
      modifies this
      ensures objref == o
      ensures objectPath == FsPath.Join(dataPath, o.StoragePath())
      ensures objectDir == FsPath.Join(dataPath, ObjectDir(o.path))
      ensures mkdirErrno.Some? ==> ops == old(ops) + [Mkdirs(objectDir)]
      ensures mkdirErrno.None? ==> ops == old(ops) + [Mkdirs(objectDir), Create(objectPath)]
      ensures mkdirErrno.Some? ==> r == Err(MkdirError(mkdirErrno.value))
      ensures mkdirErrno.None? && openRet < 0 ==> r == Err(ERR_INTERNAL_ERROR)
      ensures mkdirErrno.None? && openRet >= 0 ==> r == Ok(()) && fd == openRet
      ensures r.Err? ==> fd == old(fd)
      ensures bytesWritten == old(bytesWritten) && ioFailed == old(ioFailed)
    {
      Target(o);
      r := Open(mkdirErrno, openRet);
    }

    /** The writer takes the object and the paths of its data file and directory. */
    method Target(o: Object)
      requires o.Valid()
      modifies this
      ensures objref == o
      ensures objectPath == FsPath.Join(dataPath, o.StoragePath())
      ensures objectDir == FsPath.Join(dataPath, ObjectDir(o.path))
      ensures ops == old(ops) && fd == old(fd)
      ensures bytesWritten == old(bytesWritten) && ioFailed == old(ioFailed)
    {
      var file := FsPath.Join(dataPath, o.StoragePath());
      var dir := FsPath.Join(dataPath, ObjectDir(o.path));
      objref, objectPath, objectDir := o, file, dir;
    }

    /**
     * prepare: with less free space than the reserve, the quota error
     * before any version is created. Otherwise a new version is created
     * (an internal error when that fails, leaving no object), its data
     * path is derived, and the file is opened.
     */
    method Prepare(availBytes: nat, minSpaceLeft: nat, generated: string, created: string -> Option<Version>,
                   mkdirErrno: Option<int>, openRet: int)
      returns (r: Result<(), Error>)
      requires Valid() && fd < 0 && !ioFailed
      requires forall id :: created(id).Some? ==> PathUuid(created(id).value.objectId)
      modifies this, db
      ensures Valid()
      ensures availBytes < minSpaceLeft ==>
                && r == Err(ERR_QUOTA_EXCEEDED)
                && db.requests == old(db.requests) && ops == old(ops) && objref == old(objref) && fd == old(fd)
      ensures availBytes >= minSpaceLeft ==>
                db.requests == old(db.requests) + [CreateNewVersion(bucket.bucketId, key.name, VersionIdFor(key, generated))]
      ensures availBytes >= minSpaceLeft && created(VersionIdFor(key, generated)).None? ==>
                r == Err(ERR_INTERNAL_ERROR) && objref == null && ops == old(ops)
      ensures availBytes >= minSpaceLeft && created(VersionIdFor(key, generated)).Some? ==>
                && objref != null && fresh(objref) && objref.Valid()
                && objref.name == key.name && objref.versionId == created(VersionIdFor(key, generated)).value.id
                && objectPath == FsPath.Join(dataPath, objref.StoragePath())
                && objectDir == FsPath.Join(dataPath, ObjectDir(objref.path))
                && (mkdirErrno.Some? ==> ops == old(ops) + [Mkdirs(objectDir)])
                && (mkdirErrno.None? ==> ops == old(ops) + [Mkdirs(objectDir), Create(objectPath)])
                && (mkdirErrno.Some? ==> r == Err(MkdirError(mkdirErrno.value)))
                && (mkdirErrno.None? && openRet < 0 ==> r == Err(ERR_INTERNAL_ERROR))
                && (mkdirErrno.None? && openRet >= 0 ==> r == Ok(()) && fd == openRet)
      ensures r.Err? ==> fd == old(fd)
      ensures bytesWritten == old(bytesWritten) && ioFailed == old(ioFailed)
    {
      if availBytes < minSpaceLeft {
        return Err(ERR_QUOTA_EXCEEDED);
      }
      var versionId, o := bucket.CreateVersion(db, key, generated, created);
      if o.None? {
        objref := null;
        return Err(ERR_INTERNAL_ERROR);
      }
      r := Attach(o.value, mkdirErrno, openRet);
    }

    /**
     * process: a failed writer answers with an internal error and writes
     * nothing; empty data is the final piece and changes nothing.
     * Otherwise the data is written at the offset: on success bytesWritten
     * grows by its length; on failure (writeRet, the negated errno) the
     * writer is marked failed, the file closed and the version cleaned up,
     * and the error is the quota error for a full disk.
     */
    method Process(data: Blob, offset: int, writeRet: int, closeErrno: Option<int>)
      returns (r: Result<(), Error>)
      requires Valid()
      requires !ioFailed && |data| > 0 ==> fd >= 0
      requires closeErrno.Some? ==> closeErrno.value > 0
      modifies this, db
      ensures Valid() && objref == old(objref)
      ensures old(ioFailed) ==>
                && r == Err(ERR_INTERNAL_ERROR) && ioFailed
                && ops == old(ops) && bytesWritten == old(bytesWritten) && db.requests == old(db.requests)
      ensures !old(ioFailed) && |data| == 0 ==>
                && r == Ok(()) && !ioFailed && fd == old(fd)
                && ops == old(ops) && bytesWritten == old(bytesWritten) && db.requests == old(db.requests)
      ensures !old(ioFailed) && |data| > 0 && writeRet >= 0 ==>
                && r == Ok(()) && !ioFailed && fd == old(fd)
                && ops == old(ops) + [WriteAt(old(fd), |data|, offset)]
                && bytesWritten == old(bytesWritten) + |data| && db.requests == old(db.requests)
      ensures !old(ioFailed) && |data| > 0 && writeRet < 0 ==>
                && r == Err(FailureOf(writeRet)) && ioFailed && fd == -1
                && ops == old(ops) + [WriteAt(old(fd), |data|, offset), Fsync(old(fd)), CloseFd(old(fd)),
                                      Remove(objectPath), FsyncDir(objectDir)]
                && bytesWritten == old(bytesWritten)
                && db.requests == old(db.requests) + [RemoveVersion(objref.versionId)]
    {
      if ioFailed {
        return Err(ERR_INTERNAL_ERROR);
      }
      if |data| == 0 {
        return Ok(());
      }
      ops := ops + [WriteAt(fd, |data|, offset)];
      if writeRet < 0 {
        ioFailed := true;
        var _ := Close(closeErrno);
        Cleanup();
        return Err(FailureOf(writeRet));
      }
      bytesWritten := bytesWritten + |data|;
      r := Ok(());
    }

    /**
     * complete: a byte count other than the accounted size closes the
     * file, cleans up and is an internal error; so is a failed close,
     * with the close's error. Otherwise the attributes (with the bucket's
     * default retention when the object has none) and the metadata (the
     * accounted size, the etag, the clock as mtime) are set on the version,
     * the mtime is reported, and the version is committed; a failure to
     * commit marks the writer failed, cleans up, and is the quota error
     * for a full disk.
     */
    method Complete(accountedSize: nat, etag: string, setMtime: int, attrs: Attrs, deleteAt: int, now: int,
                    retention: Option<Blob>, closeErrno: Option<int>,
                    storedObject: DbObject, stored: Version, commitNow: int, finish: FinishOutcome)
      returns (r: Result<(), Error>, mtime: Option<int>)
      requires Valid() && fd >= 0
      requires closeErrno.Some? ==> closeErrno.value > 0
      requires storedObject.uuid == objref.path && stored.id == objref.versionId
      modifies this, db, objref
      ensures Valid() && fd == -1 && objref == old(objref)
      ensures bytesWritten == old(bytesWritten)
      ensures r.Ok? <==> bytesWritten == accountedSize && closeErrno.None? && finish.Finished?
      ensures bytesWritten != accountedSize ==>
                && r == Err(ERR_INTERNAL_ERROR) && mtime.None?
                && ops == old(ops) + [Fsync(old(fd)), CloseFd(old(fd)), Remove(objectPath), FsyncDir(objectDir)]
                && db.requests == old(db.requests) + [RemoveVersion(objref.versionId)]
                && objref.attrs == old(objref.attrs) && objref.meta == old(objref.meta)
      ensures bytesWritten == accountedSize && closeErrno.Some? ==>
                && r == Err(CloseError(closeErrno.value)) && ioFailed && mtime.None?
                && ops == old(ops) + [Fsync(old(fd)), CloseFd(old(fd)), Remove(objectPath), FsyncDir(objectDir)]
                && db.requests == old(db.requests) + [RemoveVersion(objref.versionId)]
                && objref.attrs == old(objref.attrs) && objref.meta == old(objref.meta)
      ensures bytesWritten == accountedSize && closeErrno.None? ==>
                && mtime == Some(now)
                && objref.attrs == WithDefaultRetention(attrs, retention)
                && objref.meta == Meta(accountedSize, etag, now, setMtime, deleteAt)
      ensures bytesWritten == accountedSize && closeErrno.None? && finish.Finished? ==>
                && !ioFailed && ops == old(ops) + [Fsync(old(fd)), CloseFd(old(fd))]
                && db.requests == old(db.requests)
                     + [StoreObject(storedObject.(name := objref.name))]
                     + [var v := FinishedVersion(stored, objref.meta, objref.attrs, commitNow);
                        if bucket.versioningEnabled then StoreVersion(v) else StoreVersionDeleteRest(v)]
      ensures bytesWritten == accountedSize && closeErrno.None? && !finish.Finished? ==>
                && r == Err(FailureOf(finish.code)) && ioFailed
                && ops == old(ops) + [Fsync(old(fd)), CloseFd(old(fd)), Remove(objectPath), FsyncDir(objectDir)]
                && db.requests == old(db.requests)
                     + (if finish.VersionRowFails? then [StoreObject(storedObject.(name := objref.name))] else [])
                     + [RemoveVersion(objref.versionId)]
    {
      mtime := None;
      if bytesWritten != accountedSize {
        var _ := Close(closeErrno);
        Cleanup();
        return Err(ERR_INTERNAL_ERROR), None;
      }
      var result := Close(closeErrno);
      if ioFailed {
        Cleanup();
        return result, None;
      }
      mtime := Some(now);
      r := Commit(accountedSize, etag, setMtime, attrs, deleteAt, now, retention, storedObject, stored, commitNow, finish);
    }

    /**
     * The tail of complete once the file is closed cleanly: the object
     * takes its attributes and metadata, then metadata_finish stores its
     * rows; a failed row store removes the data file and the version.
     */
    method Commit(accountedSize: nat, etag: string, setMtime: int, attrs: Attrs, deleteAt: int, now: int,
                  retention: Option<Blob>, storedObject: DbObject, stored: Version, commitNow: int, finish: FinishOutcome)
      returns (r: Result<(), Error>)
      requires objref != null && fd == -1 && !ioFailed
      requires storedObject.uuid == objref.path && stored.id == objref.versionId
      modifies this, db, objref
      ensures objref == old(objref) && fd == -1 && bytesWritten == old(bytesWritten)
      ensures objectPath == old(objectPath) && objectDir == old(objectDir)
      ensures objref.attrs == WithDefaultRetention(attrs, retention)
      ensures objref.meta == Meta(accountedSize, etag, now, setMtime, deleteAt)
      ensures r.Ok? <==> finish.Finished?
      ensures finish.Finished? ==>
                && !ioFailed && ops == old(ops)
                && db.requests == old(db.requests)
                     + [StoreObject(storedObject.(name := objref.name))]
                     + [var v := FinishedVersion(stored, objref.meta, objref.attrs, commitNow);
                        if bucket.versioningEnabled then StoreVersion(v) else StoreVersionDeleteRest(v)]
      ensures !finish.Finished? ==>
                && r == Err(FailureOf(finish.code)) && ioFailed
                && ops == old(ops) + [Remove(objectPath), FsyncDir(objectDir)]
                && db.requests == old(db.requests)
                     + (if finish.VersionRowFails? then [StoreObject(storedObject.(name := objref.name))] else [])
                     + [RemoveVersion(objref.versionId)]
    {
      objref.UpdateAttrs(WithDefaultRetention(attrs, retention));
      objref.UpdateMeta(Meta(accountedSize, etag, now, setMtime, deleteAt));
      match finish {
        case Finished =>
          objref.MetadataFinish(db, storedObject, stored, bucket.versioningEnabled, commitNow);
          r := Ok(());
        case ObjectRowFails(code) =>
          ioFailed := true;
          Cleanup();
          r := Err(FailureOf(code));
        case VersionRowFails(code) =>
          db.Send(StoreObject(storedObject.(name := objref.name)));
          ioFailed := true;
          Cleanup();
          r := Err(FailureOf(code));
      }
    }
  }

  /** The part's state as the multipart writer sees it; the states it does not accept are OTHER. */
  datatype PartState = NONE | PREPARED | INPROGRESS | OTHER

  /** The arguments finish_write records for the part. */
  datatype PartWrite = PartWrite(offset: int, len: nat, etag: string)

  /** The part of a multipart upload a writer fills: its state, its data file, and its recorded write. */
  class MultipartPart {
    var state: PartState
    var contents: Blob
    var finished: Option<PartWrite>

    constructor (state0: PartState)
      ensures state == state0 && contents == [] && finished.None?
    {
      state := state0;
      contents := [];
      finished := None;
    }
  }

  /**
   * SFSMultipartWriter: appends one part's data to the part's file.
   * partOffset is the offset of the part's first piece; internalOffset and
   * partLen count the bytes appended.
   */
  class SFSMultipartWriter {
    const part: MultipartPart
    var partOffset: int
    var partLen: nat
    var internalOffset: nat

    constructor (part0: MultipartPart)
      ensures part == part0 && partOffset == 0 && partLen == 0 && internalOffset == 0
    {
      part := part0;
      partOffset := 0;
      partLen := 0;
      internalOffset := 0;
    }

    /** Both counters agree with the length of the part's file. */
    predicate Tracks()
      reads this, part
    {
      partLen == internalOffset == |part.contents|
    }

    /**
     * prepare: the quota error when free space is below the reserve;
     * otherwise the part's file is truncated and the part is PREPARED.
     */
    method Prepare(availBytes: nat, minSpaceLeft: nat) returns (r: Result<(), Error>)
      requires availBytes >= minSpaceLeft ==> part.state != OTHER
      modifies part
      ensures availBytes < minSpaceLeft ==>
                r == Err(ERR_QUOTA_EXCEEDED) && part.state == old(part.state) && part.contents == old(part.contents)
      ensures availBytes >= minSpaceLeft ==> r == Ok(()) && part.state == PREPARED && part.contents == []
      ensures part.finished == old(part.finished)
      ensures r.Ok? && partLen == 0 && internalOffset == 0 ==> Tracks()
    {
      if availBytes < minSpaceLeft {
        return Err(ERR_QUOTA_EXCEEDED);
      }
      part.contents := [];
      part.state := PREPARED;
      r := Ok(());
    }

    /**
     * process: the first piece after prepare fixes partOffset; the part is
     * then INPROGRESS, the data is appended to its file, and both counters
     * grow by the data's length.
     */
    method Process(data: Blob, offset: int) returns (r: Result<(), Error>)
      requires part.state == PREPARED || part.state == INPROGRESS
      modifies this, part
      ensures r == Ok(())
      ensures old(part.state) == PREPARED ==> partOffset == offset
      ensures old(part.state) == INPROGRESS ==> partOffset == old(partOffset)
      ensures part.state == INPROGRESS && part.finished == old(part.finished)
      ensures part.contents == old(part.contents) + data
      ensures internalOffset == old(internalOffset) + |data| && partLen == old(partLen) + |data|
      ensures old(Tracks()) ==> Tracks()
    {
      if part.state == PREPARED {
        partOffset := offset;
      }
      part.state := INPROGRESS;
      part.contents := part.contents + data;
      internalOffset := internalOffset + |data|;
      partLen := partLen + |data|;
      r := Ok(());
    }

    /** complete: the part's offset, length and etag are recorded. */
    method Complete(etag: string) returns (r: Result<(), Error>)
      modifies part
      ensures r == Ok(()) && part.finished == Some(PartWrite(partOffset, partLen, etag))
      ensures part.state == old(part.state) && part.contents == old(part.contents)
    {
      part.finished := Some(PartWrite(partOffset, partLen, etag));
      r := Ok(());
    }
  }
}
