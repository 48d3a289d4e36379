/**
 * critical_error: which SQLite primary result codes the SFS metadata
 * layer treats as fatal.  Everything else (busy, locked, constraint, the
 * extended codes, ...) is worth retrying.
 */
module SqliteErrors {
  // SQLite primary result codes
  const SQLITE_OK: int := 0
  const SQLITE_ERROR: int := 1
  const SQLITE_INTERNAL: int := 2
  const SQLITE_PERM: int := 3
  const SQLITE_ABORT: int := 4
  const SQLITE_BUSY: int := 5
  const SQLITE_LOCKED: int := 6
  const SQLITE_NOMEM: int := 7
  const SQLITE_READONLY: int := 8
  const SQLITE_INTERRUPT: int := 9
  const SQLITE_IOERR: int := 10
  const SQLITE_CORRUPT: int := 11
  const SQLITE_NOTFOUND: int := 12
  const SQLITE_FULL: int := 13
  const SQLITE_CANTOPEN: int := 14
  const SQLITE_PROTOCOL: int := 15
  const SQLITE_EMPTY: int := 16
  const SQLITE_SCHEMA: int := 17
  const SQLITE_TOOBIG: int := 18
  const SQLITE_CONSTRAINT: int := 19
  const SQLITE_MISMATCH: int := 20
  const SQLITE_MISUSE: int := 21
  const SQLITE_NOLFS: int := 22
  const SQLITE_AUTH: int := 23
  const SQLITE_FORMAT: int := 24
  const SQLITE_RANGE: int := 25
  const SQLITE_NOTADB: int := 26

  /** The codes that are not worth retrying. */
  const CRITICAL_CODES: set<int> := {
    SQLITE_ERROR, SQLITE_INTERNAL, SQLITE_PERM, SQLITE_NOMEM, SQLITE_READONLY, SQLITE_IOERR,
    SQLITE_CORRUPT, SQLITE_NOTFOUND, SQLITE_FULL, SQLITE_CANTOPEN, SQLITE_PROTOCOL, SQLITE_TOOBIG,
    SQLITE_MISMATCH, SQLITE_MISUSE, SQLITE_NOLFS, SQLITE_AUTH, SQLITE_RANGE, SQLITE_NOTADB}

  /** critical_error: the switch over the code. */
  function CriticalError(ec: int): (r: bool)
    ensures r <==> ec in CRITICAL_CODES
    ensures r ==> SQLITE_ERROR <= ec <= SQLITE_NOTADB
  {
    match ec
    case 1 => true
    case 2 => true
    case 3 => true
    case 7 => true
    case 8 => true
    case 10 => true
    case 11 => true
    case 12 => true
    case 13 => true
    case 14 => true
    case 15 => true
    case 18 => true
    case 20 => true
    case 21 => true
    case 22 => true
    case 23 => true
    case 25 => true
    case 26 => true
    case _ => false
  }

  /** Busy, locked, constraint and the other primary codes outside the
   *  list, success included, are not critical; neither is any code outside
   *  1..26 (the extended codes such as SQLITE_IOERR_READ among them). */
  lemma NonCriticalCodes(ec: int)
    requires ec in {SQLITE_OK, SQLITE_ABORT, SQLITE_BUSY, SQLITE_LOCKED, SQLITE_INTERRUPT, SQLITE_EMPTY,
                    SQLITE_SCHEMA, SQLITE_CONSTRAINT, SQLITE_FORMAT} || ec < 1 || ec > 26
    ensures !CriticalError(ec)
  {
  }
}
