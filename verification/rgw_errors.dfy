/**
 * The error codes the SFS driver returns, negated, to the S3 front end:
 * POSIX errno values and the gateway's own ERR_* codes (rgw_common.h).
 * Only their identity matters to the model, so they are named, not numbered;
 * a bare -1 is EPERM.
 */
module RgwErrors {
  datatype Error =
    | EPERM | ENOENT | ENODATA | ERANGE | EINVAL | EEXIST | ENOTEMPTY | EIO
    | ERR_NO_SUCH_BUCKET | ERR_NO_SUCH_UPLOAD | ERR_INVALID_PART | ERR_INVALID_PART_ORDER
    | ERR_TOO_SMALL | ERR_QUOTA_EXCEEDED | ERR_INTERNAL_ERROR
}
